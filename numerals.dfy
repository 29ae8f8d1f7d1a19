/**
 * Decimal text of the numbers that go into a CSV cell, and the parsers that
 * read them back.
 *
 * Python's csv writer turns every cell into text with str(): an int becomes
 * its decimal digits, and a float holding a value with two decimal places
 * becomes the shortest decimal that denotes it, with at least one digit
 * after the point ("23.5", "23.0", "23.45", "-0.05"). Reading a cell back is
 * the reverse conversion.
 */
module Numerals {
  import opened Wrappers

  predicate IsDigit(c: char) { '0' <= c <= '9' }

  predicate AllDigits(s: string) { forall i :: 0 <= i < |s| ==> IsDigit(s[i]) }

  function DigitChar(d: nat): (c: char)
    requires d < 10
    ensures IsDigit(c) && c as int - '0' as int == d
  {
    ('0' as int + d) as char
  }

  function DigitValue(c: char): (d: nat)
    requires IsDigit(c)
    ensures d < 10 && DigitChar(d) == c
  {
    c as int - '0' as int
  }

  // ---------------------------------------------------------------------------
  // Whole numbers

  /** The decimal digits of n, without leading zeros. */
  function NatText(n: nat): (s: string)
    ensures |s| > 0 && AllDigits(s)
    decreases n
  {
    if n < 10 then [DigitChar(n)] else NatText(n / 10) + [DigitChar(n % 10)]
  }

  /** The value of a string of decimal digits, most significant first. */
  function DigitsValue(s: string): nat
    requires AllDigits(s)
    decreases |s|
  {
    if |s| == 0 then 0 else DigitsValue(s[..|s| - 1]) * 10 + DigitValue(s[|s| - 1])
  }

  /** A non-empty run of digits, or nothing. */
  function ParseNat(s: string): (r: Option<nat>)
    ensures r.Some? <==> |s| > 0 && AllDigits(s)
  {
    if |s| > 0 && AllDigits(s) then Some(DigitsValue(s)) else None
  }

  /** Python's str() of an int: a minus sign for negative values, then the digits. */
  function IntText(i: int): (s: string)
    ensures |s| > 0
    ensures (s[0] == '-') <==> i < 0
  {
    if i < 0 then "-" + NatText(-i) else NatText(i)
  }

  /** The inverse of IntText: an optional minus sign followed by digits. */
  function ParseInt(s: string): Option<int> {
    if |s| > 0 && s[0] == '-' then
      match ParseNat(s[1..])
      case Some(n) => Some(-(n as int))
      case None => None
    else
      match ParseNat(s)
      case Some(n) => Some(n)
      case None => None
  }

  lemma {:induction false} NatTextRoundTrip(n: nat)
    ensures DigitsValue(NatText(n)) == n
    decreases n
  {
    if n >= 10 {
      var s := NatText(n / 10);
      NatTextRoundTrip(n / 10);
      assert (s + [DigitChar(n % 10)])[..|s|] == s;
    }
  }

  lemma IntTextRoundTrip(i: int)
    ensures ParseInt(IntText(i)) == Some(i)
  {
    if i < 0 {
      assert IntText(i)[1..] == NatText(-i);
      NatTextRoundTrip(-i);
    } else {
      NatTextRoundTrip(i);
    }
  }

  // ---------------------------------------------------------------------------
  // Values with two decimal places

  /** The digits after the point of a fraction f/100: trailing zero dropped, one digit at least. */
  function FracText(f: nat): (s: string)
    requires f < 100
    ensures 1 <= |s| <= 2 && AllDigits(s)
  {
    if f % 10 == 0 then [DigitChar(f / 10)] else [DigitChar(f / 10), DigitChar(f % 10)]
  }

  /** Python's str() of the float n/100: a minus sign before a negative value, then the whole part, a point and the decimals. */
  function CentiText(n: int): string
    decreases if n < 0 then 1 else 0
  {
    if n < 0 then "-" + CentiText(-n) else NatText(n / 100) + "." + FracText(n % 100)
  }

  /** The position of the first '.' in s, or |s| when there is none. */
  function DotIndex(s: string): (k: nat)
    ensures k <= |s|
    ensures forall i :: 0 <= i < k ==> s[i] != '.'
    ensures k < |s| ==> s[k] == '.'
  {
    if |s| == 0 || s[0] == '.' then 0 else 1 + DotIndex(s[1..])
  }

  /** One or two digits after the point, read as hundredths. */
  function ParseFrac(t: string): (r: Option<nat>)
    ensures r.Some? ==> r.value < 100
  {
    if |t| == 1 && IsDigit(t[0]) then Some(DigitValue(t[0]) * 10)
    else if |t| == 2 && IsDigit(t[0]) && IsDigit(t[1]) then Some(DigitValue(t[0]) * 10 + DigitValue(t[1]))
    else None
  }

  /** A decimal without sign, with at most two digits after an optional point, in hundredths. */
  function ParseUnsignedCenti(s: string): Option<nat> {
    var k := DotIndex(s);
    if k == |s| then
      match ParseNat(s)
      case Some(w) => Some(w * 100)
      case None => None
    else
      match ParseNat(s[..k])
      case None => None
      case Some(w) =>
        match ParseFrac(s[k + 1..])
        case None => None
        case Some(f) => Some(w * 100 + f)
  }

  /** The point value of a cell holding a number with at most two decimals, in hundredths. */
  function ParseCenti(s: string): Option<int> {
    if |s| > 0 && s[0] == '-' then
      match ParseUnsignedCenti(s[1..])
      case Some(n) => Some(-(n as int))
      case None => None
    else
      match ParseUnsignedCenti(s)
      case Some(n) => Some(n)
      case None => None
  }

  lemma DotIndexAfterDigits(w: string, t: string)
    requires AllDigits(w)
    ensures DotIndex(w + "." + t) == |w|
  {
    var s := w + "." + t;
    assert s[|w|] == '.';
    assert forall i :: 0 <= i < |w| ==> s[i] == w[i];
  }

  lemma DotIndexOfDigits(w: string)
    requires AllDigits(w)
    ensures DotIndex(w) == |w|
  {
  }

  /** Digits, a point and a fraction read as the whole part in hundreds plus the fraction. */
  lemma ParseDecimal(w: string, t: string, q: nat, f: nat)
    requires |w| > 0 && AllDigits(w) && DigitsValue(w) == q && ParseFrac(t) == Some(f)
    ensures ParseUnsignedCenti(w + "." + t) == Some(q * 100 + f)
  {
    var s := w + "." + t;
    DotIndexAfterDigits(w, t);
    assert s[..|w|] == w;
    assert s[|w| + 1..] == t;
  }

  /** Digits without a point read as that many hundreds. */
  lemma ParseWhole(w: string)
    requires |w| > 0 && AllDigits(w)
    ensures ParseUnsignedCenti(w) == Some(DigitsValue(w) * 100)
  {
    DotIndexOfDigits(w);
  }

  /** A cell starting with a digit reads as its unsigned value. */
  lemma ParseCentiPlain(u: string, a: nat)
    requires |u| > 0 && IsDigit(u[0]) && ParseUnsignedCenti(u) == Some(a)
    ensures ParseCenti(u) == Some(a)
  {
  }

  /** A cell starting with a minus sign reads as the negated value of the rest. */
  lemma ParseCentiMinus(u: string, a: nat)
    requires ParseUnsignedCenti(u) == Some(a)
    ensures ParseCenti("-" + u) == Some(-(a as int))
  {
    assert ("-" + u)[1..] == u;
  }

  lemma UnsignedCentiRoundTrip(a: nat)
    ensures ParseUnsignedCenti(NatText(a / 100) + "." + FracText(a % 100)) == Some(a)
  {
    var q, f := a / 100, a % 100;
    assert q * 100 + f == a;
    DecimalRoundTrip(q, f);
  }

  lemma DecimalRoundTrip(q: nat, f: nat)
    requires f < 100
    ensures ParseUnsignedCenti(NatText(q) + "." + FracText(f)) == Some(q * 100 + f)
  {
    NatTextRoundTrip(q);
    FracTextRoundTrip(f);
    ParseDecimal(NatText(q), FracText(f), q, f);
  }

  lemma FracTextRoundTrip(f: nat)
    requires f < 100
    ensures ParseFrac(FracText(f)) == Some(f)
  {
  }

  /** str() of a two-decimal float reads back as the same number of hundredths. */
  lemma CentiTextRoundTrip(n: int)
    ensures ParseCenti(CentiText(n)) == Some(n)
  {
    var a := if n < 0 then -n else n;
    var u := NatText(a / 100) + "." + FracText(a % 100);
    assert CentiText(a) == u;
    UnsignedCentiRoundTrip(a);
    if n < 0 {
      ParseCentiMinus(u, a);
      assert CentiText(n) == "-" + u;
    } else {
      ParseCentiPlain(u, a);
    }
  }

  /** A whole number written by IntText reads back, as a two-decimal value, as that many hundreds. */
  lemma IntTextAsCenti(i: int)
    ensures ParseCenti(IntText(i)) == Some(i * 100)
  {
    var a := if i < 0 then -i else i;
    var w := NatText(a);
    NatTextRoundTrip(a);
    ParseWhole(w);
    if i < 0 {
      ParseCentiMinus(w, a * 100);
      assert IntText(i) == "-" + w;
    } else {
      ParseCentiPlain(w, a * 100);
    }
  }

  /** Python's int() of the float n/100: the whole part, truncated toward zero. */
  function TruncateHundredths(n: int): (w: int)
    ensures 0 <= n ==> 0 <= w * 100 <= n < w * 100 + 100
    ensures n < 0 ==> w * 100 - 100 < n <= w * 100 <= 0
  {
    if n >= 0 then n / 100 else -((-n) / 100)
  }
}

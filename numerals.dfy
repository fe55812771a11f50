/**
 * Decimal text <-> number, as Python's `float(text)` reads it and `str(x)`
 * writes it back. A float is kept as the decimal numeral it was read from,
 * so reading back what was written gives the same numeral.
 */
module Numerals {
  import opened Strings

  predicate IsDigit(c: char) { '0' <= c <= '9' }

  predicate AllDigits(s: string) { forall i :: 0 <= i < |s| ==> IsDigit(s[i]) }

  /** An optional minus sign, the digits before the point and the digits after it. */
  datatype Numeral = Numeral(negative: bool, whole: string, frac: string)
  {
    predicate Valid() { AllDigits(whole) && AllDigits(frac) && |whole| + |frac| > 0 }
  }

  /** A finite float, as the decimal numeral that denotes it. */
  type Float = n: Numeral | n.Valid() witness Numeral(false, "0", "")

  function DigitValue(c: char): nat
    requires IsDigit(c)
  {
    c as int - '0' as int
  }

  /** The natural number a string of decimal digits denotes. */
  function Natural(s: string): nat
    requires AllDigits(s)
  {
    if s == [] then 0 else Natural(s[..|s| - 1]) * 10 + DigitValue(s[|s| - 1])
  }

  /** The value of the digits after the point, read as a fraction below one. */
  function Fraction(s: string): (r: real)
    requires AllDigits(s)
    ensures 0.0 <= r < 1.0
  {
    if s == [] then 0.0 else (DigitValue(s[0]) as real + Fraction(s[1..])) / 10.0
  }

  /** The real number a numeral denotes. */
  function Value(n: Float): real
  {
    var magnitude := Natural(n.whole) as real + Fraction(n.frac);
    if n.negative then -magnitude else magnitude
  }

  /** `str(x)` for a float held as a numeral. */
  function Show(n: Float): (s: string)
  {
    (if n.negative then "-" else "") + Unsigned(n)
  }

  /** What `float(text)` makes of a string. */
  datatype Scan = Finite(n: Float) | NotANumber | Malformed

  /** The length of the run of digits at the start of `s`. */
  function LeadingDigits(s: string): (k: nat)
    ensures k <= |s|
    ensures AllDigits(s[..k])
    ensures k < |s| ==> !IsDigit(s[k])
  {
    if s != [] && IsDigit(s[0]) then
      var k := 1 + LeadingDigits(s[1..]);
      assert s[..k] == [s[0]] + s[1..][..k - 1];
      k
    else 0
  }

  /**
   * Python's `float(text)` on decimal text: surrounding whitespace is ignored,
   * then an optional sign, then digits with an optional point (at least one
   * digit in all), or the word nan in any letter case.
   */
  function Parse(text: string): Scan
  {
    var t := Strip(text);
    if t != [] && (t[0] == '+' || t[0] == '-') then ParseSigned(t[0] == '-', t[1..])
    else ParseSigned(false, t)
  }

  function ParseSigned(negative: bool, u: string): Scan
  {
    if Lower(u) == "nan" then NotANumber else ParseUnsigned(negative, u)
  }

  function ParseUnsigned(negative: bool, u: string): Scan
  {
    var w := LeadingDigits(u);
    if w == |u| then
      if w > 0 then Finite(Numeral(negative, u, "")) else Malformed
    else if u[w] == '.' && AllDigits(u[w + 1..]) && (w > 0 || w + 1 < |u|) then
      Finite(Numeral(negative, u[..w], u[w + 1..]))
    else
      Malformed
  }

  /** The text of a float holds no character beyond a sign, digits and a point. */
  lemma ShowHasNoLetters(n: Float, x: char)
    requires x != '-' && x != '.' && !IsDigit(x)
    ensures x !in Show(n)
  {
    assert Show(n) == (if n.negative then "-" else "") + n.whole + (if n.frac == "" then "" else "." + n.frac);
  }

  lemma {:induction false} LeadingDigitsOfNumeral(whole: string, rest: string)
    requires AllDigits(whole)
    requires rest == [] || rest[0] == '.'
    ensures LeadingDigits(whole + rest) == |whole|
  {
    if whole != [] {
      assert (whole + rest)[1..] == whole[1..] + rest;
      LeadingDigitsOfNumeral(whole[1..], rest);
    } else {
      assert whole + rest == rest;
    }
  }

  /** The unsigned part of `Show(n)`: the digits, then the point and fraction if any. */
  function Unsigned(n: Float): (u: string)
    ensures |u| > 0 && (u[0] == '.' || IsDigit(u[0])) && IsDigit(u[|u| - 1])
  {
    n.whole + (if n.frac == "" then "" else "." + n.frac)
  }

  lemma ParseUnsignedNumeral(n: Float)
    ensures ParseUnsigned(n.negative, Unsigned(n)) == Finite(n)
  {
    var rest := if n.frac == "" then "" else "." + n.frac;
    var u := Unsigned(n);
    LeadingDigitsOfNumeral(n.whole, rest);
    assert u[..|n.whole|] == n.whole;
    if n.frac != "" {
      assert u[|n.whole| + 1..] == n.frac;
    }
  }

  lemma UnsignedIsNotNan(n: Float)
    ensures Lower(Unsigned(n)) != "nan"
  {
    var u := Unsigned(n);
    LowerAt(u, 0);
  }

  /** Reading back what `Show` wrote gives the same numeral. */
  lemma ParseShow(n: Float)
    ensures Parse(Show(n)) == Finite(n)
  {
    var s := Show(n);
    var u := Unsigned(n);
    assert s == (if n.negative then "-" else "") + u;
    assert !IsSpace(s[0]) by { assert s[0] == '-' || s[0] == u[0]; }
    assert !IsSpace(s[|s| - 1]) by { assert s[|s| - 1] == u[|u| - 1]; }
    StripUnpadded(s);
    UnsignedIsNotNan(n);
    ParseUnsignedNumeral(n);
    if n.negative {
      assert s[1..] == u;
      assert Parse(s) == ParseSigned(true, u);
    } else {
      assert s == u;
      assert Parse(s) == ParseSigned(false, u);
    }
  }

  /** A numeral without a minus sign denotes a non-negative number. */
  lemma ValueNonNegative(n: Float)
    requires !n.negative
    ensures Value(n) >= 0.0
  {
  }

  lemma ParseUnsignedChars(negative: bool, u: string)
    requires ParseUnsigned(negative, u).Finite?
    ensures forall i :: 0 <= i < |u| ==> IsDigit(u[i]) || u[i] == '.'
    ensures ParseUnsigned(negative, u).n.negative == negative
  {
    var w := LeadingDigits(u);
    forall i | 0 <= i < |u|
      ensures IsDigit(u[i]) || u[i] == '.'
    {
      if i < w {
        assert u[..w][i] == u[i];
      } else if i > w {
        assert u[w + 1..][i - w - 1] == u[i];
      }
    }
  }

  /**
   * `float(text)` raises on text holding a character that cannot occur in
   * a decimal numeral or in the word nan (a letter such as M or B, say).
   */
  lemma ParseRejects(text: string, x: char)
    requires x in text && !IsSpace(x) && !IsDigit(x)
    requires x != '.' && x != '+' && x != '-'
    requires LowerChar(x) != 'n' && LowerChar(x) != 'a'
    ensures Parse(text) == Malformed
  {
    var t := Strip(text);
    StripKeeps(text, x);
    if t != [] && (t[0] == '+' || t[0] == '-') {
      var u := t[1..];
      assert x in u by {
        var i :| 0 <= i < |t| && t[i] == x;
        assert u[i - 1] == x;
      }
      SignedRejects(t[0] == '-', u, x);
    } else {
      SignedRejects(false, t, x);
    }
  }

  /** The part after the sign is rejected when it holds such a character. */
  lemma SignedRejects(negative: bool, u: string, x: char)
    requires x in u && !IsDigit(x) && x != '.'
    requires LowerChar(x) != 'n' && LowerChar(x) != 'a'
    ensures ParseSigned(negative, u) == Malformed
  {
    var k :| 0 <= k < |u| && u[k] == x;
    LowerAt(u, k);
    assert Lower(u) != "nan";
    if ParseUnsigned(negative, u).Finite? {
      ParseUnsignedChars(negative, u);
    }
  }

  /** A negative number can only be read from text that holds a minus sign. */
  lemma ParseNegativeNeedsMinus(text: string)
    requires Parse(text).Finite? && Parse(text).n.negative
    ensures '-' in text
  {
    var t := Strip(text);
    if t != [] && (t[0] == '+' || t[0] == '-') {
      if t[0] == '-' {
        StripKeeps(text, '-');
      } else {
        ParseUnsignedChars(false, t[1..]);
      }
    } else {
      ParseUnsignedChars(false, t);
    }
  }
}

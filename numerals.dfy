/**
 * Decimal numerals: Python's `int(text)` restricted to ASCII (an optional sign and
 * digits) and the decimal number syntax that `pd.to_numeric` accepts in this model.
 */
module Numerals {
  import opened Wrappers
  import opened Strings

  predicate IsDigit(c: char) {
    '0' <= c <= '9'
  }

  predicate AllDigits(s: string) {
    forall i :: 0 <= i < |s| ==> IsDigit(s[i])
  }

  function DigitValue(c: char): nat
    requires IsDigit(c)
  {
    c as int - '0' as int
  }

  function DigitChar(d: nat): (c: char)
    requires d < 10
    ensures IsDigit(c) && DigitValue(c) == d
  {
    ('0' as int + d) as char
  }

  /** The value of a string of decimal digits, most significant first (`""` is 0). */
  function DigitsValue(s: string): nat
    requires AllDigits(s)
  {
    if s == [] then 0 else DigitsValue(s[..|s| - 1]) * 10 + DigitValue(s[|s| - 1])
  }

  /** `str(n)` for a natural number: the shortest digit string whose value is `n`. */
  function NatText(n: nat): (s: string)
    ensures |s| > 0 && AllDigits(s)
    ensures DigitsValue(s) == n
  {
    if n < 10 then [DigitChar(n)]
    else
      var s := NatText(n / 10) + [DigitChar(n % 10)];
      assert s[..|s| - 1] == NatText(n / 10);
      s
  }

  /** `str(i)` for an integer. */
  function IntText(i: int): (s: string)
    ensures |s| > 0 && IsTrimmed(s) && '/' !in s
  {
    if i < 0 then "-" + NatText(-i) else NatText(i)
  }

  predicate IsSign(c: char) {
    c == '+' || c == '-'
  }

  /**
   * `int(s)` on a string that `strip()` has already trimmed: an optional sign followed
   * by at least one ASCII digit; anything else is the `ValueError` the source catches.
   */
  function ParseInt(s: string): (r: Option<int>)
    ensures r.Some? <==>
      (|s| > 0 && IsSign(s[0]) && |s| > 1 && AllDigits(s[1..])) || (|s| > 0 && AllDigits(s))
  {
    if |s| > 0 && IsSign(s[0]) then
      if |s| > 1 && AllDigits(s[1..]) then
        var v: int := DigitsValue(s[1..]);
        Some(if s[0] == '-' then -v else v)
      else None
    else if |s| > 0 && AllDigits(s) then Some(DigitsValue(s))
    else None
  }

  /** `int(str(i)) == i`. */
  lemma ParseIntText(i: int)
    ensures ParseInt(IntText(i)) == Some(i)
  {
    if i < 0 {
      var t := NatText(-i);
      assert ("-" + t)[1..] == t;
    } else {
      assert !IsSign(NatText(i)[0]);
    }
  }

  function Pow10(k: nat): (p: nat)
    ensures p >= 1
  {
    if k == 0 then 1 else 10 * Pow10(k - 1)
  }

  /** The first index of `c` in `s`, or `|s|` when it does not occur. */
  function IndexOf(s: string, c: char): (k: nat)
    ensures k <= |s|
    ensures forall j :: 0 <= j < k ==> s[j] != c
    ensures k < |s| ==> s[k] == c
  {
    if s == [] then 0 else if s[0] == c then 0 else 1 + IndexOf(s[1..], c)
  }

  /** The value of the digits after a decimal point. */
  function FracValue(frac: string): (v: real)
    requires AllDigits(frac)
    ensures frac == [] ==> v == 0.0
  {
    if frac == [] then 0.0 else DigitsValue(frac) as real / Pow10(|frac|) as real
  }

  /** Digits with an optional decimal point and at least one digit: `"32"`, `"2.5"`, `".5"`, `"5."`. */
  function ParseUnsigned(s: string): Option<real> {
    var k := IndexOf(s, '.');
    var whole := s[..k];
    var frac := if k < |s| then s[k + 1..] else [];
    if AllDigits(whole) && AllDigits(frac) && |whole| + |frac| > 0 then
      Some(DigitsValue(whole) as real + FracValue(frac))
    else None
  }

  /** The white space the pandas number parser skips: ASCII only, unlike `str.strip()`. */
  predicate IsAsciiSpace(c: char) {
    c == ' ' || ('\t' <= c <= '\r')
  }

  function AsciiTrimLeft(s: string): string {
    if s == [] || !IsAsciiSpace(s[0]) then s else AsciiTrimLeft(s[1..])
  }

  function AsciiTrimRight(s: string): string {
    if s == [] || !IsAsciiSpace(s[|s| - 1]) then s else AsciiTrimRight(s[..|s| - 1])
  }

  /** `text` without the ASCII white space at either end. */
  function AsciiTrim(s: string): string {
    AsciiTrimRight(AsciiTrimLeft(s))
  }

  /**
   * The numeric text `pd.to_numeric(..., errors='coerce')` turns into a number in this
   * model: surrounding ASCII white space, an optional sign, then `ParseUnsigned`.
   */
  function ParseNumber(text: string): Option<real> {
    var s := AsciiTrim(text);
    if |s| > 0 && IsSign(s[0]) then
      match ParseUnsigned(s[1..])
      case Some(v) => Some(if s[0] == '-' then -v else v)
      case None => None
    else ParseUnsigned(s)
  }

  /** The text of an integer parses back to that integer. */
  lemma ParseNumberText(i: int)
    ensures ParseNumber(IntText(i)) == Some(i as real)
  {
    var t := IntText(i);
    assert AsciiTrim(t) == t by {
      assert !IsAsciiSpace(t[0]) && !IsAsciiSpace(t[|t| - 1]);
      assert AsciiTrimLeft(t) == t;
    }
    var n := NatText(if i < 0 then -i else i);
    ParseUnsignedDigits(n);
    if i < 0 {
      SignedText(n);
    } else {
      assert t == n;
    }
  }

  /**
   * Only ASCII white space is skipped: a number followed by a full-width space or a
   * no-break space, which `str.strip()` would remove, is not a number.
   */
  lemma ParseNumberAsciiOnly()
    ensures ParseNumber("32 ") == Some(32.0)
    ensures ParseNumber("32\U{3000}") == None
    ensures ParseNumber("\U{a0}32") == None
  {
    var d := "32";
    assert AllDigits(d) && DigitsValue(d) == 32;
    ParseUnsignedDigits(d);
    assert AsciiTrimLeft("32 ") == "32 ";
    assert AsciiTrimRight("32") == "32";
    assert AsciiTrim("32 ") == d;
    var w := "32\U{3000}";
    assert AsciiTrim(w) == w;
    assert IndexOf(w, '.') == 3 by {
      assert w[1..][1..][1..] == [];
    }
    assert !AllDigits(w) by { assert !IsDigit(w[2]); }
    var b := "\U{a0}32";
    assert AsciiTrim(b) == b;
    assert !IsSign(b[0]);
    assert IndexOf(b, '.') == 3 by {
      assert b[1..][1..][1..] == [];
    }
    assert !AllDigits(b) by { assert !IsDigit(b[0]); }
  }

  lemma SignedText(n: string)
    requires AllDigits(n) && |n| > 0
    requires ParseUnsigned(n) == Some(DigitsValue(n) as real)
    ensures ParseUnsigned(("-" + n)[1..]) == Some(DigitsValue(n) as real)
  {
    assert ("-" + n)[1..] == n;
  }

  /** A plain digit string parses to its value. */
  lemma ParseUnsignedDigits(n: string)
    requires AllDigits(n) && |n| > 0
    ensures ParseUnsigned(n) == Some(DigitsValue(n) as real)
  {
    var k := IndexOf(n, '.');
    assert k == |n|;
    assert n[..k] == n;
  }
}

/**
 * The few PHP value conversions the router relies on: `!empty()` of a string,
 * the `(int)` cast of a string, and the decimal text that `fwrite` produces
 * for an integer.
 */
module Php {

  /** `!empty($s)` for a string: everything but "" and "0" is non-empty. */
  predicate Truthy(s: string) {
    s != "" && s != "0"
  }

  predicate IsDigit(c: char) {
    '0' <= c <= '9'
  }

  /** The white-space characters that `(int)` skips before a number. */
  predicate IsSpace(c: char) {
    c == ' ' || c == '\t' || c == '\n' || c == '\r' || c == '\U{B}' || c == '\U{C}'
  }

  function DigitValue(c: char): (d: nat)
    requires IsDigit(c)
    ensures d < 10
  {
    (c - '0') as nat
  }

  function DigitChar(d: nat): (c: char)
    requires d < 10
    ensures IsDigit(c) && DigitValue(c) == d
  {
    '0' + d as char
  }

  /** `s` without its leading white space. */
  function SkipSpaces(s: string): (r: string)
    ensures r == [] || !IsSpace(r[0])
    ensures |r| <= |s| && r == s[|s| - |r|..]
  {
    if s != [] && IsSpace(s[0]) then SkipSpaces(s[1..]) else s
  }

  /** The longest prefix of `s` made of decimal digits. */
  function DigitPrefix(s: string): (r: string)
    ensures r <= s
    ensures forall i :: 0 <= i < |r| ==> IsDigit(r[i])
    ensures |r| < |s| ==> !IsDigit(s[|r|])
  {
    if s != [] && IsDigit(s[0]) then [s[0]] + DigitPrefix(s[1..]) else []
  }

  /** The value of a string of decimal digits, most significant first. */
  function DigitsValue(ds: string): (n: nat)
    requires forall i :: 0 <= i < |ds| ==> IsDigit(ds[i])
  {
    if ds == [] then 0 else DigitsValue(ds[..|ds| - 1]) * 10 + DigitValue(ds[|ds| - 1])
  }

  /**
   * PHP's `(int)` cast of a string: leading white space, an optional sign,
   * then the longest run of decimal digits; anything after it is ignored and
   * a string with no leading digits casts to 0. Exponent notation, which PHP
   * 7.1 and later honour (`"1e3"` casts to 1000), is not modelled: here the
   * cast stops at the `e`.
   */
  function IntCast(s: string): (n: int)
    ensures (s == [] || IsDigit(s[0])) ==> n >= 0
  {
    var t := SkipSpaces(s);
    if t != [] && t[0] == '-' then -(DigitsValue(DigitPrefix(t[1..])) as int)
    else if t != [] && t[0] == '+' then DigitsValue(DigitPrefix(t[1..]))
    else DigitsValue(DigitPrefix(t))
  }

  /** The decimal text of a natural number, as PHP prints it. */
  function DecimalString(n: nat): (s: string)
    ensures s != [] && forall i :: 0 <= i < |s| ==> IsDigit(s[i])
  {
    if n < 10 then [DigitChar(n)] else DecimalString(n / 10) + [DigitChar(n % 10)]
  }

  /** The first `limit` characters of `s` (all of it when shorter), as `fread($fp, limit)` returns. */
  function Prefix(s: string, limit: nat): (r: string)
    ensures r <= s && |r| == if |s| <= limit then |s| else limit
  {
    if |s| <= limit then s else s[..limit]
  }

  function Pow10(k: nat): (p: nat)
    ensures p >= 1
  {
    if k == 0 then 1 else 10 * Pow10(k - 1)
  }

  lemma {:induction false} DigitsValueOfDecimal(n: nat)
    ensures DigitsValue(DecimalString(n)) == n
  {
    var s := DecimalString(n);
    if n < 10 {
      assert s[..0] == [];
    } else {
      DigitsValueOfDecimal(n / 10);
      assert s[..|s| - 1] == DecimalString(n / 10);
    }
  }

  /** Reading back what was printed: `(int)` of the decimal text of `n` is `n`. */
  lemma {:induction false} IntCastOfDecimal(n: nat)
    ensures IntCast(DecimalString(n)) == n
  {
    IntCastOfDigits(DecimalString(n));
    DigitsValueOfDecimal(n);
  }

  /** A string of digits casts to the number it spells. */
  lemma {:induction false} IntCastOfDigits(s: string)
    requires s != [] && forall i :: 0 <= i < |s| ==> IsDigit(s[i])
    ensures IntCast(s) == DigitsValue(s)
  {
    assert IsDigit(s[0]) && !IsSpace(s[0]);
    var t := SkipSpaces(s);
    assert t == s;
    assert t[0] != '-' && t[0] != '+';
    DigitPrefixOfDigits(s);
  }

  lemma {:induction false} DigitPrefixOfDigits(s: string)
    requires forall i :: 0 <= i < |s| ==> IsDigit(s[i])
    ensures DigitPrefix(s) == s
  {
    if s != [] {
      DigitPrefixOfDigits(s[1..]);
    }
  }

  /** A number below 10^k prints in at most k characters. */
  lemma {:induction false} DecimalStringLength(n: nat, k: nat)
    requires 1 <= k && n < Pow10(k)
    ensures |DecimalString(n)| <= k
  {
    if n >= 10 {
      assert k >= 2;
      assert n / 10 < Pow10(k - 1);
      DecimalStringLength(n / 10, k - 1);
    }
  }

  /** Only the number 0 prints as "0": the decimal text of a positive number is non-empty in PHP's sense. */
  lemma DecimalStringTruthy(n: nat)
    requires n > 0
    ensures Truthy(DecimalString(n))
  {
  }
}

/**
 * String helpers that the worker and the demo server use through JavaScript's
 * built-ins: decimal conversion of integers (template literals), ASCII
 * lower-casing (`toLowerCase`) and substring search (`includes`).
 */
module Strings {
  import opened Wrappers

  predicate IsDigit(c: char) {
    '0' <= c <= '9'
  }

  predicate AllDigits(s: string) {
    forall i :: 0 <= i < |s| ==> IsDigit(s[i])
  }

  function DigitValue(c: char): (d: nat)
    requires IsDigit(c)
    ensures d < 10
  {
    c as int - '0' as int
  }

  function DigitChar(d: nat): (c: char)
    requires d < 10
    ensures IsDigit(c) && DigitValue(c) == d
  {
    ('0' as int + d) as char
  }

  /** The number a string of decimal digits denotes. */
  function DigitsValue(s: string): nat
    requires AllDigits(s)
  {
    if |s| == 0 then 0 else DigitsValue(s[..|s| - 1]) * 10 + DigitValue(s[|s| - 1])
  }

  /**
   * The decimal text JavaScript writes for a non-negative integer below 10^21
   * (larger numbers are written in exponent form): at least one digit, no
   * leading zero, `0` alone for zero, and denoting `n`.
   */
  function NatToString(n: nat): (s: string)
    ensures 1 <= |s| && AllDigits(s)
    ensures (s[0] == '0') == (n == 0)
    ensures n == 0 ==> s == "0"
    ensures DigitsValue(s) == n
  {
    if n < 10 then [DigitChar(n)]
    else
      var prefix := NatToString(n / 10);
      var s := prefix + [DigitChar(n % 10)];
      assert s[..|s| - 1] == prefix;
      s
  }

  /**
   * The decimal text JavaScript writes for an integer of magnitude below 10^21:
   * a `-` exactly when it is negative, then the digits of its magnitude.
   */
  function IntToString(i: int): (s: string)
    ensures 2 <= |s| || (1 <= |s| && i >= 0)
    ensures (s[0] == '-') <==> i < 0
    ensures var digits := if i < 0 then s[1..] else s;
      1 <= |digits| && AllDigits(digits) && DigitsValue(digits) == (if i < 0 then -i else i)
    ensures var digits := if i < 0 then s[1..] else s;
      digits[0] != '0' || digits == "0"
  {
    if i < 0 then "-" + NatToString(-i) else NatToString(i)
  }

  /** The length of the longest prefix of `s` made of digits. */
  function DigitRun(s: string): (k: nat)
    ensures k <= |s| && AllDigits(s[..k])
    ensures k < |s| ==> !IsDigit(s[k])
  {
    if |s| == 0 || !IsDigit(s[0]) then 0
    else
      var k := 1 + DigitRun(s[1..]);
      assert forall i :: 1 <= i < k ==> s[..k][i] == s[1..][..k - 1][i - 1];
      k
  }

  /** Reads a non-empty run of digits at the front of `s`; gives its value and what follows. */
  function ParseNat(s: string): Option<(nat, string)> {
    var k := DigitRun(s);
    if k == 0 then None else Some((DigitsValue(s[..k]), s[k..]))
  }

  /** Reads an optionally negative integer at the front of `s`; gives its value and what follows. */
  function ParseInt(s: string): Option<(int, string)> {
    var negative := |s| > 0 && s[0] == '-';
    var magnitude := ParseNat(if negative then s[1..] else s);
    if magnitude.None? then None
    else
      var value: int := if negative then 0 - magnitude.value.0 else magnitude.value.0;
      Some((value, magnitude.value.1))
  }

  lemma ParseNatToString(n: nat, rest: string)
    requires rest == [] || !IsDigit(rest[0])
    ensures ParseNat(NatToString(n) + rest) == Some((n, rest))
  {
    var d := NatToString(n);
    var s := d + rest;
    var k := DigitRun(s);
    assert forall i :: 0 <= i < |d| ==> s[i] == d[i];
    assert |d| < |s| ==> s[|d|] == rest[0];
    assert k == |d|;
    assert s[..k] == d;
    assert s[k..] == rest;
  }

  lemma ParseIntToString(i: int, rest: string)
    requires rest == [] || !IsDigit(rest[0])
    ensures ParseInt(IntToString(i) + rest) == Some((i, rest))
  {
    if i < 0 {
      ParseNegativeToString(i, rest);
    } else {
      ParseNonNegativeToString(i, rest);
    }
  }

  lemma ParseNegativeToString(i: int, rest: string)
    requires i < 0
    requires rest == [] || !IsDigit(rest[0])
    ensures ParseInt(IntToString(i) + rest) == Some((i, rest))
  {
    var d := NatToString(-i);
    var s := "-" + (d + rest);
    assert IntToString(i) + rest == s;
    assert s[1..] == d + rest;
    ParseNatToString(-i, rest);
    var magnitude := ParseNat(s[1..]);
    assert magnitude == Some((-i, rest));
    assert ParseInt(s) == Some((0 - magnitude.value.0, magnitude.value.1));
  }

  lemma ParseNonNegativeToString(n: nat, rest: string)
    requires rest == [] || !IsDigit(rest[0])
    ensures ParseInt(IntToString(n) + rest) == Some((n, rest))
  {
    var d := NatToString(n);
    var s := d + rest;
    assert IntToString(n) + rest == s;
    assert s[0] == d[0];
    ParseNatToString(n, rest);
  }

  /** ASCII lower-casing of one character; every other character is left as it is. */
  function LowerChar(c: char): char {
    if 'A' <= c <= 'Z' then (c as int - 'A' as int + 'a' as int) as char else c
  }

  /** `toLowerCase`, on the ASCII letters. */
  function Lower(s: string): string {
    seq(|s|, i requires 0 <= i < |s| => LowerChar(s[i]))
  }

  /** Lower-cased text has no upper-case letter left to fold. */
  lemma LowerIdempotent(s: string)
    ensures Lower(Lower(s)) == Lower(s)
  {
    assert forall i :: 0 <= i < |s| ==> LowerChar(LowerChar(s[i])) == LowerChar(s[i]);
  }

  /** `s.includes(pat)`: `pat` occurs in `s` at some position. */
  function Includes(s: string, pat: string): bool
    decreases |s|
  {
    (|pat| <= |s| && s[..|pat|] == pat) || (|s| > 0 && Includes(s[1..], pat))
  }
}

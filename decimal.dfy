/**
 * Decimal rendering of integers as Java's `%d` conversion writes them
 * (an optional '-' followed by the digits, no grouping, no padding), and a
 * reader for that rendering, so that formatted reports can be shown to
 * determine the numbers they were built from.
 */
module Decimal {
  import opened Wrappers

  predicate IsDigit(c: char) {
    '0' <= c <= '9'
  }

  predicate AllDigits(s: string) {
    forall i :: 0 <= i < |s| ==> IsDigit(s[i])
  }

  function DigitChar(d: nat): (c: char)
    requires d < 10
    ensures IsDigit(c)
  {
    (48 + d) as char
  }

  function DigitValue(c: char): (d: nat)
    requires IsDigit(c)
    ensures d < 10 && DigitChar(d) == c
  {
    (c as int) - 48
  }

  /** The digits of `n`, most significant first, without leading zeros. */
  function FormatNat(n: nat): (s: string)
    ensures |s| > 0 && AllDigits(s)
    ensures |s| > 1 ==> s[0] != '0'
  {
    if n < 10 then [DigitChar(n)] else FormatNat(n / 10) + [DigitChar(n % 10)]
  }

  /** `%d` of `x`. */
  function Format(x: int): string {
    if x < 0 then "-" + FormatNat(-x) else FormatNat(x)
  }

  /** The number a string of digits denotes. */
  function DigitsValue(s: string): nat
    requires AllDigits(s)
  {
    if s == [] then 0 else DigitsValue(s[..|s| - 1]) * 10 + DigitValue(s[|s| - 1])
  }

  /** The length of the longest prefix of `s` made of digits. */
  function DigitRun(s: string): (k: nat)
    ensures k <= |s| && AllDigits(s[..k])
    ensures k < |s| ==> !IsDigit(s[k])
  {
    if s == [] || !IsDigit(s[0]) then 0 else 1 + DigitRun(s[1..])
  }

  /**
   * Reads an integer as `%d` writes it from the front of `s`: an optional
   * '-' and then the longest run of digits, which must not be empty.
   * Returns the number and what follows it.
   */
  function ParseInt(s: string): Option<(int, string)> {
    if |s| > 0 && s[0] == '-' then
      var k := DigitRun(s[1..]);
      var v: int := DigitsValue(s[1..][..k]);
      if k == 0 then None else Some((-v, s[1..][k..]))
    else
      var k := DigitRun(s);
      if k == 0 then None else Some((DigitsValue(s[..k]), s[k..]))
  }

  lemma {:induction false} DigitsValueOfFormat(n: nat)
    ensures DigitsValue(FormatNat(n)) == n
  {
    var s := FormatNat(n);
    if n >= 10 {
      DigitsValueOfFormat(n / 10);
      assert s[..|s| - 1] == FormatNat(n / 10);
    }
  }

  lemma {:induction false} DigitRunOfDigits(d: string, rest: string)
    requires AllDigits(d)
    requires rest == [] || !IsDigit(rest[0])
    ensures DigitRun(d + rest) == |d|
  {
    if d != [] {
      assert (d + rest)[1..] == d[1..] + rest;
      DigitRunOfDigits(d[1..], rest);
    } else {
      assert d + rest == rest;
    }
  }

  /** Reading back what `Format` wrote yields the number and nothing of what follows. */
  lemma ParseFormat(x: int, rest: string)
    requires rest == [] || !IsDigit(rest[0])
    ensures ParseInt(Format(x) + rest) == Some((x, rest))
  {
    var n: nat := if x < 0 then -x else x;
    var d := FormatNat(n);
    DigitRunOfDigits(d, rest);
    DigitsValueOfFormat(n);
    assert (d + rest)[..|d|] == d;
    assert (d + rest)[|d|..] == rest;
    if x < 0 {
      var s := Format(x) + rest;
      assert s[1..] == d + rest;
    } else {
      assert d[0] != '-';
    }
  }
}

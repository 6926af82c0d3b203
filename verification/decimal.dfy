/** Decimal text of integers, as Python's `str` and `format` write it, and the parser
    that reads such text back. */
module Decimal {

  import opened Wrappers

  predicate IsDigit(c: char)
  {
    '0' <= c <= '9'
  }

  predicate AllDigits(s: string)
  {
    forall i | 0 <= i < |s| :: IsDigit(s[i])
  }

  function DigitChar(d: nat): (c: char)
    requires d < 10
    ensures IsDigit(c)
  {
    ['0', '1', '2', '3', '4', '5', '6', '7', '8', '9'][d]
  }

  function DigitValue(c: char): (d: nat)
    requires IsDigit(c)
    ensures d < 10
  {
    (c as int) - ('0' as int)
  }

  /** `str(n)` for a non-negative integer: its digits, most significant first, no
      leading zeros. */
  function NatToString(n: nat): (s: string)
    ensures |s| >= 1 && AllDigits(s)
    ensures s[0] == '0' ==> n == 0
  {
    if n < 10 then [DigitChar(n)] else NatToString(n / 10) + [DigitChar(n % 10)]
  }

  /** `str(i)` for any integer: a minus sign before the digits of a negative number. */
  function IntToString(i: int): (s: string)
    ensures |s| >= 1
  {
    if i < 0 then "-" + NatToString(-i) else NatToString(i)
  }

  /** The number a string of digits denotes. */
  function DigitsValue(s: string): nat
    requires AllDigits(s)
  {
    if s == [] then 0 else DigitsValue(s[..|s| - 1]) * 10 + DigitValue(s[|s| - 1])
  }

  /** The digits of `n` denote `n`. */
  lemma {:induction false} NatToStringValue(n: nat)
    ensures DigitsValue(NatToString(n)) == n
  {
    if n >= 10 {
      NatToStringValue(n / 10);
      var s := NatToString(n);
      assert s[..|s| - 1] == NatToString(n / 10);
    }
  }

  /** Number of leading digits of `s`. */
  function DigitRun(s: string): (r: nat)
    ensures r <= |s| && AllDigits(s[..r])
    ensures r < |s| ==> !IsDigit(s[r])
  {
    if s != [] && IsDigit(s[0]) then
      assert s[..1 + DigitRun(s[1..])] == [s[0]] + s[1..][..DigitRun(s[1..])];
      1 + DigitRun(s[1..])
    else 0
  }

  /** Reads the longest run of leading digits as a number; `None` when `s` does not
      start with a digit. */
  function ParseNat(s: string): (r: Option<(nat, string)>)
    ensures r.Some? ==> |r.value.1| < |s| && r.value.1 == s[|s| - |r.value.1|..]
  {
    var n := DigitRun(s);
    if n == 0 then None else Some((DigitsValue(s[..n]), s[n..]))
  }

  /** `s` without its leading spaces. */
  function SkipSpaces(s: string): (r: string)
    ensures |r| <= |s|
  {
    if s != [] && s[0] == ' ' then SkipSpaces(s[1..]) else s
  }

  /** The rest of `s` after `prefix`, or `None` when `s` does not start with it. */
  function Expect(prefix: string, s: string): (r: Option<string>)
    ensures r.Some? <==> prefix <= s
    ensures r.Some? ==> prefix + r.value == s
  {
    if prefix <= s then Some(s[|prefix|..]) else None
  }

  /** `format(s, "2")` for a number's text: right-aligned in a field of `width`
      characters, padded with spaces on the left; longer text is kept whole. */
  function PadLeft(s: string, width: nat): (r: string)
    ensures |r| == if |s| < width then width else |s|
    ensures r[|r| - |s|..] == s
    ensures forall i | 0 <= i < |r| - |s| :: r[i] == ' '
  {
    if |s| < width then seq(width - |s|, _ => ' ') + s else s
  }

  /** Reading the digits of `n` followed by text that does not start with a digit gives
      back `n` and that text. */
  lemma {:induction false} ParseNatToString(n: nat, rest: string)
    requires rest == [] || !IsDigit(rest[0])
    ensures ParseNat(NatToString(n) + rest) == Some((n, rest))
  {
    var d := NatToString(n);
    DigitRunOfDigits(d, rest);
    assert (d + rest)[..|d|] == d;
    assert (d + rest)[|d|..] == rest;
    NatToStringValue(n);
  }

  lemma {:induction false} DigitRunOfDigits(d: string, rest: string)
    requires AllDigits(d)
    requires rest == [] || !IsDigit(rest[0])
    ensures DigitRun(d + rest) == |d|
    decreases |d|
  {
    if d != [] {
      assert (d + rest)[1..] == d[1..] + rest;
      DigitRunOfDigits(d[1..], rest);
    }
  }

  /** Skipping the padding of a padded number gives back the number's text. */
  lemma {:induction false} SkipPadding(n: nat, width: nat, rest: string)
    ensures SkipSpaces(PadLeft(NatToString(n), width) + rest) == NatToString(n) + rest
  {
    var d := NatToString(n);
    SkipSpacesPrefix(|PadLeft(d, width)| - |d|, d + rest);
    assert PadLeft(d, width) + rest == seq(|PadLeft(d, width)| - |d|, _ => ' ') + (d + rest);
  }

  lemma {:induction false} SkipSpacesPrefix(k: nat, s: string)
    requires s == [] || s[0] != ' '
    ensures SkipSpaces(seq(k, _ => ' ') + s) == s
  {
    if k > 0 {
      assert (seq(k, _ => ' ') + s)[1..] == seq(k - 1, _ => ' ') + s;
      SkipSpacesPrefix(k - 1, s);
    }
  }
}

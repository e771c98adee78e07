/**
 * The parts of the Arduino `String` class and of the C library that the
 * uplink and the configuration portal depend on: `startsWith`, `substring`,
 * `indexOf(...) >= 0`, `toInt()` (which is `atol`, i.e. `strtol` base 10) and
 * the decimal and hexadecimal renderings of `String(n)`, `String(n, HEX)` and
 * `sprintf("%0*X")`. A char of a model string stands for one byte.
 */
module Text {
  import opened Common

  const I32Min: int := -0x8000_0000
  const I32Max: int := 0x7FFF_FFFF

  predicate StartsWith(s: string, prefix: string)
  {
    |prefix| <= |s| && s[..|prefix|] == prefix
  }

  predicate MatchAt(s: string, pat: string, i: int)
  {
    0 <= i <= |s| - |pat| && s[i..i + |pat|] == pat
  }

  /** `s.indexOf(pat) >= 0`. */
  predicate Contains(s: string, pat: string)
  {
    exists i | 0 <= i <= |s| - |pat| :: MatchAt(s, pat, i)
  }

  /** Arduino `String::substring(left, right)`: the bounds are swapped when
      reversed, an empty string when `left` is past the end, and `right` is
      clamped to the length. */
  function Substring(s: string, left: nat, right: nat): (r: string)
    ensures |r| <= |s|
    ensures left <= right <= |s| ==> r == s[left..right]
    ensures left <= right && left >= |s| ==> r == []
  {
    if left > right then Substring(s, right, left)
    else if left >= |s| then []
    else s[left..Min(right, |s|)]
  }

  predicate IsSpace(c: char)
  {
    c == ' ' || c == '\t' || c == '\n' || c == '\r' || c == '\U{0B}' || c == '\U{0C}'
  }

  predicate IsDigit(c: char)
  {
    '0' <= c <= '9'
  }

  function DigitValue(c: char): (d: nat)
    requires IsDigit(c)
    ensures d < 10
  {
    c as int - '0' as int
  }

  function DigitChar(d: nat): (c: char)
    requires d < 10
    ensures IsDigit(c) && DigitValue(c) == d
  {
    (d + '0' as int) as char
  }

  function SkipSpaces(s: string): (r: string)
    ensures |r| <= |s| && r == s[|s| - |r|..]
    ensures r == [] || !IsSpace(r[0])
  {
    if s != [] && IsSpace(s[0]) then SkipSpaces(s[1..]) else s
  }

  /** The longest prefix of `s` made of decimal digits. */
  function LeadingDigits(s: string): (d: string)
    ensures |d| <= |s| && d == s[..|d|]
    ensures forall i :: 0 <= i < |d| ==> IsDigit(d[i])
    ensures |d| < |s| ==> !IsDigit(s[|d|])
  {
    if s != [] && IsDigit(s[0]) then [s[0]] + LeadingDigits(s[1..]) else []
  }

  /** The value of a string of decimal digits, most significant first. */
  function DigitsValue(d: string): nat
    requires forall i :: 0 <= i < |d| ==> IsDigit(d[i])
  {
    if d == [] then 0 else DigitsValue(d[..|d| - 1]) * 10 + DigitValue(d[|d| - 1])
  }

  function Clamp32(v: int): (r: int)
    ensures I32Min <= r <= I32Max
    ensures I32Min <= v <= I32Max ==> r == v
  {
    if v < I32Min then I32Min else if v > I32Max then I32Max else v
  }

  /** `String::toInt()`: leading white space, an optional sign, then the
      longest run of digits; 0 when there is none; clamped to `long`. */
  function ToInt(s: string): (r: int)
    ensures I32Min <= r <= I32Max
  {
    Clamp32(SignedPrefixValue(SkipSpaces(s)))
  }

  /** The value of an optional sign followed by the longest run of digits. */
  function SignedPrefixValue(t: string): int
  {
    if t != [] && t[0] == '-' then 0 - DigitsValue(LeadingDigits(t[1..]))
    else if t != [] && t[0] == '+' then DigitsValue(LeadingDigits(t[1..]))
    else DigitsValue(LeadingDigits(t))
  }

  /** Decimal rendering of a natural number, as `String(n)`. */
  function NatToDec(n: nat): (s: string)
    ensures |s| >= 1
    ensures forall i :: 0 <= i < |s| ==> IsDigit(s[i])
  {
    if n < 10 then [DigitChar(n)] else NatToDec(n / 10) + [DigitChar(n % 10)]
  }

  /** Decimal rendering of a signed number, as `String(int)`. */
  function IntToDec(x: int): (s: string)
    ensures |s| >= 1
  {
    if x < 0 then "-" + NatToDec(-x) else NatToDec(x)
  }

  lemma {:induction false} DigitsValueOfNatToDec(n: nat)
    ensures DigitsValue(NatToDec(n)) == n
  {
    if n >= 10 {
      var s := NatToDec(n);
      assert s[..|s| - 1] == NatToDec(n / 10);
      DigitsValueOfNatToDec(n / 10);
    }
  }

  /** Printing a number with `String(n)` and reading it back with `toInt()`
      gives the number back. */
  lemma {:induction false} ToIntOfIntToDec(x: int)
    requires I32Min <= x <= I32Max
    ensures ToInt(IntToDec(x)) == x
  {
    var n := if x < 0 then -x else x;
    var d := NatToDec(n);
    DigitsValueOfNatToDec(n);
    if x < 0 {
      ToIntOfNegatedDigits(d);
    } else {
      ToIntOfDigits(d);
    }
  }

  lemma {:induction false} ToIntOfDigits(d: string)
    requires d != [] && forall i :: 0 <= i < |d| ==> IsDigit(d[i])
    ensures ToInt(d) == Clamp32(DigitsValue(d))
  {
    NoLeadingSpace(d);
    UnsignedPrefix(d);
    LeadingDigitsOfDigits(d);
    ToIntOfPrefixValue(d, DigitsValue(d));
  }

  lemma {:induction false} NoLeadingSpace(s: string)
    requires s != [] && (IsDigit(s[0]) || s[0] == '-')
    ensures SkipSpaces(s) == s
  {
    assert !IsSpace(s[0]);
  }

  lemma {:induction false} NegatedPrefix(t: string)
    requires t != [] && t[0] == '-'
    ensures SignedPrefixValue(t) == 0 - DigitsValue(LeadingDigits(t[1..]))
  {
  }

  lemma {:induction false} UnsignedPrefix(t: string)
    requires t != [] && IsDigit(t[0])
    ensures SignedPrefixValue(t) == DigitsValue(LeadingDigits(t))
  {
    assert t[0] != '-' && t[0] != '+';
  }

  lemma {:induction false} ToIntOfNegatedDigits(d: string)
    requires d != [] && forall i :: 0 <= i < |d| ==> IsDigit(d[i])
    ensures ToInt(['-'] + d) == Clamp32(0 - DigitsValue(d))
  {
    var s := ['-'] + d;
    NoLeadingSpace(s);
    NegatedPrefix(s);
    assert s[1..] == d;
    LeadingDigitsOfDigits(d);
    ToIntOfPrefixValue(s, 0 - DigitsValue(d));
  }

  lemma {:induction false} ToIntOfPrefixValue(s: string, v: int)
    requires SkipSpaces(s) == s && SignedPrefixValue(s) == v
    ensures ToInt(s) == Clamp32(v)
  {
  }

  lemma {:induction false} LeadingDigitsOfDigits(d: string)
    requires forall i :: 0 <= i < |d| ==> IsDigit(d[i])
    ensures LeadingDigits(d) == d
  {
    if d != [] {
      LeadingDigitsOfDigits(d[1..]);
    }
  }

  function HexDigitUpper(d: nat): (c: char)
    requires d < 16
  {
    if d < 10 then DigitChar(d) else ('A' as int + d - 10) as char
  }

  function HexDigitLower(d: nat): (c: char)
    requires d < 16
  {
    if d < 10 then DigitChar(d) else ('a' as int + d - 10) as char
  }

  function HexValue(c: char): (v: nat)
  {
    if '0' <= c <= '9' then c as int - '0' as int
    else if 'A' <= c <= 'F' then c as int - 'A' as int + 10
    else if 'a' <= c <= 'f' then c as int - 'a' as int + 10
    else 0
  }

  function Pow16(k: nat): (p: nat)
    ensures p >= 1
  {
    if k == 0 then 1 else 16 * Pow16(k - 1)
  }

  /** `%0<width>X`: exactly `width` upper-case hex digits of `n`, most
      significant first (for `n < 16^width`, which is all `%0*X` pads to). */
  function HexUpperPadded(n: nat, width: nat): (s: string)
    ensures |s| == width
    ensures forall i :: 0 <= i < |s| ==> '0' <= s[i] <= '9' || 'A' <= s[i] <= 'F'
  {
    if width == 0 then [] else HexUpperPadded(n / 16, width - 1) + [HexDigitUpper(n % 16)]
  }

  /** The value of a string of hex digits, most significant first. */
  function HexDigitsValue(s: string): nat
  {
    if s == [] then 0 else HexDigitsValue(s[..|s| - 1]) * 16 + HexValue(s[|s| - 1])
  }

  lemma {:induction false} HexUpperPaddedRoundTrip(n: nat, width: nat)
    requires n < Pow16(width)
    ensures HexDigitsValue(HexUpperPadded(n, width)) == n
  {
    if width > 0 {
      var s := HexUpperPadded(n, width);
      assert s[..|s| - 1] == HexUpperPadded(n / 16, width - 1);
      HexUpperPaddedRoundTrip(n / 16, width - 1);
      assert HexValue(HexDigitUpper(n % 16)) == n % 16;
    }
  }

  /** `String(n, HEX)`: lower-case hex digits without leading zeros. */
  function HexLower(n: nat): (s: string)
    ensures |s| >= 1
  {
    if n < 16 then [HexDigitLower(n)] else HexLower(n / 16) + [HexDigitLower(n % 16)]
  }
}

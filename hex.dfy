/**
 * Base-16 conversion as the generator uses it: int(text, 16) on the code-point
 * fields of EastAsianWidth.txt, and its inverse: the digits hex() prints, and
 * the zero-padded upper-case fields the data file holds.
 */
module Hex {
  import opened Wrappers

  predicate IsHexDigit(c: char) {
    '0' <= c <= '9' || 'a' <= c <= 'f' || 'A' <= c <= 'F'
  }

  /** The value of one hex digit; upper and lower case are equivalent. */
  function DigitValue(c: char): (d: nat)
    requires IsHexDigit(c)
    ensures d < 16
  {
    if '0' <= c <= '9' then c as int - '0' as int
    else if 'a' <= c <= 'f' then c as int - 'a' as int + 10
    else c as int - 'A' as int + 10
  }

  predicate AllHexDigits(s: string) {
    forall i :: 0 <= i < |s| ==> IsHexDigit(s[i])
  }

  /** No digit of s is written in lower case. */
  predicate UpperCase(s: string) {
    forall i :: 0 <= i < |s| ==> !('a' <= s[i] <= 'f')
  }

  /** A string int(s, 16) accepts in this model: one or more hex digits and nothing else. */
  predicate IsHexString(s: string) {
    |s| > 0 && AllHexDigits(s)
  }

  function Pow16(n: nat): (p: nat)
    ensures p >= 1
  {
    if n == 0 then 1 else 16 * Pow16(n - 1)
  }

  /** The number a digit string denotes, most significant digit first; it fits in |s| digits. */
  function HexValue(s: string): (n: nat)
    requires AllHexDigits(s)
    ensures n < Pow16(|s|)
  {
    if s == [] then 0
    else HexValue(s[..|s| - 1]) * 16 + DigitValue(s[|s| - 1])
  }

  /** int(s, 16): the value of a hex string, or None where Python raises ValueError. */
  function ParseHex(s: string): (r: Option<nat>) {
    if IsHexString(s) then Some(HexValue(s)) else None
  }

  /** The digit for a value below 16: lower case as hex() writes it, or upper case as the data file does. */
  function HexDigit(d: nat, upper: bool): (c: char)
    requires d < 16
    ensures IsHexDigit(c) && DigitValue(c) == d
    ensures if upper then !('a' <= c <= 'f') else !('A' <= c <= 'F')
  {
    if d < 10 then ('0' as int + d) as char
    else if upper then ('A' as int + d - 10) as char
    else ('a' as int + d - 10) as char
  }

  /** The shortest digit string denoting n; FormatHex(n, false) is hex(n) without its "0x" prefix. */
  function FormatHex(n: nat, upper: bool): (s: string)
    ensures IsHexString(s)
    ensures upper ==> UpperCase(s)
    decreases n
  {
    if n < 16 then [HexDigit(n, upper)] else FormatHex(n / 16, upper) + [HexDigit(n % 16, upper)]
  }

  /** Parsing the digits of n, in either case, gives n back. */
  lemma {:induction false} ParseFormatHex(n: nat, upper: bool)
    ensures ParseHex(FormatHex(n, upper)) == Some(n)
    decreases n
  {
    var s := FormatHex(n, upper);
    if n < 16 {
      assert s[..0] == [];
    } else {
      ParseFormatHex(n / 16, upper);
      assert s[..|s| - 1] == FormatHex(n / 16, upper);
    }
  }

  /** Leading zeros do not change the value: "0041" and "41" denote the same code point. */
  lemma {:induction false} LeadingZero(s: string)
    requires AllHexDigits(s)
    ensures AllHexDigits("0" + s) && HexValue("0" + s) == HexValue(s)
    decreases |s|
  {
    if s != [] {
      var t := "0" + s;
      assert t[..|t| - 1] == "0" + s[..|s| - 1];
      LeadingZero(s[..|s| - 1]);
    }
  }

  /** s with zeros prepended until it has at least width digits. */
  function ZeroPad(s: string, width: nat): string
    decreases width - |s|
  {
    if |s| >= width then s else ZeroPad("0" + s, width)
  }

  /** Zero padding keeps the digits valid and their value unchanged, and reaches the width. */
  lemma {:induction false} ZeroPadValue(s: string, width: nat)
    requires AllHexDigits(s)
    ensures |ZeroPad(s, width)| == if |s| >= width then |s| else width
    ensures AllHexDigits(ZeroPad(s, width)) && HexValue(ZeroPad(s, width)) == HexValue(s)
    ensures UpperCase(s) ==> UpperCase(ZeroPad(s, width))
    decreases width - |s|
  {
    if |s| < width {
      LeadingZero(s);
      ZeroPadValue("0" + s, width);
    }
  }

  /**
   * A code point as EastAsianWidth.txt writes it: upper-case digits, padded
   * with zeros to at least four, such as "00A1" or "1F300".
   */
  function CodePointField(n: nat): string {
    ZeroPad(FormatHex(n, true), 4)
  }

  /** Parsing a code-point field gives the code point back; the field has at least four digits, none in lower case. */
  lemma CodePointFieldValue(n: nat)
    ensures ParseHex(CodePointField(n)) == Some(n)
    ensures |CodePointField(n)| >= 4 && UpperCase(CodePointField(n))
  {
    ParseFormatHex(n, true);
    ZeroPadValue(FormatHex(n, true), 4);
  }
}

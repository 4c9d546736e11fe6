/**
 * `strconv.FormatInt(i, 16)`: lower-case base-16 text with no padding and no
 * prefix, a leading '-' for negative values; and its reading back.
 */
module Hex {

  const HexDigits: string := "0123456789abcdef"

  function Pow16(k: nat): (p: nat)
    ensures p >= 1
  {
    if k == 0 then 1 else 16 * Pow16(k - 1)
  }

  predicate IsHexDigit(c: char)
  {
    '0' <= c <= '9' || 'a' <= c <= 'f'
  }

  function HexValue(c: char): (v: nat)
    requires IsHexDigit(c)
    ensures v < 16 && HexDigits[v] == c
  {
    if c <= '9' then c as int - '0' as int else c as int - 'a' as int + 10
  }

  /** The base-16 digits of n, most significant first, without leading zeros. */
  function FormatHex(n: nat): (s: string)
    ensures |s| >= 1 && AllHex(s)
    decreases n
  {
    if n < 16 then [HexDigits[n]] else FormatHex(n / 16) + [HexDigits[n % 16]]
  }

  /** `strconv.FormatInt(i, 16)`. */
  function FormatInt(i: int): (s: string)
    ensures |s| > 0 && (s[0] == '-' <==> i < 0)
    ensures i < 0 ==> AllHex(s[1..])
    ensures i >= 0 ==> AllHex(s)
  {
    if i < 0 then "-" + FormatHex(-i) else FormatHex(i)
  }

  predicate AllHex(s: string)
  {
    forall i :: 0 <= i < |s| ==> IsHexDigit(s[i])
  }

  /** The value of base-16 text, most significant digit first. */
  function ParseHex(s: string): nat
    requires AllHex(s)
  {
    if s == [] then 0 else 16 * ParseHex(s[..|s| - 1]) + HexValue(s[|s| - 1])
  }

  /** Reading back `FormatInt`'s text: an optional '-' and hex digits. */
  function ParseInt(s: string): int
    requires |s| > 0 && (s[0] == '-' ==> AllHex(s[1..])) && (s[0] != '-' ==> AllHex(s))
  {
    if s[0] == '-' then -(ParseHex(s[1..]) as int) else ParseHex(s)
  }

  lemma HexDigitValue(d: nat)
    requires d < 16
    ensures IsHexDigit(HexDigits[d]) && HexValue(HexDigits[d]) == d
  {
  }

  /** The text is lower-case hex digits and reads back as n. */
  lemma {:induction false} FormatHexRoundTrip(n: nat)
    ensures ParseHex(FormatHex(n)) == n
  {
    var s := FormatHex(n);
    if n < 16 {
      HexDigitValue(n);
      assert s[..0] == [];
    } else {
      FormatHexRoundTrip(n / 16);
      HexDigitValue(n % 16);
      assert s[..|s| - 1] == FormatHex(n / 16);
    }
  }

  /** The first digit is never '0' unless n is 0: there is no padding. */
  lemma {:induction false} FormatHexNoLeadingZero(n: nat)
    ensures |FormatHex(n)| >= 1
    ensures FormatHex(n)[0] == '0' <==> n == 0
  {
    if n >= 16 {
      FormatHexNoLeadingZero(n / 16);
    }
  }

  /** The text has exactly as many digits as n needs: 16^(len-1) <= n < 16^len for n > 0. */
  lemma {:induction false} FormatHexLength(n: nat)
    ensures n < Pow16(|FormatHex(n)|)
    ensures n > 0 ==> Pow16(|FormatHex(n)| - 1) <= n
  {
    if n >= 16 {
      FormatHexLength(n / 16);
    }
  }

  lemma {:induction false} Pow16Increasing(a: nat, b: nat)
    requires a < b
    ensures Pow16(a) < Pow16(b)
  {
    if a < b - 1 {
      Pow16Increasing(a, b - 1);
    }
  }

  /** Powers of 16 are ordered as their exponents. */
  lemma Pow16Order(a: nat, b: nat)
    ensures a < b <==> Pow16(a) < Pow16(b)
  {
    if a < b {
      Pow16Increasing(a, b);
    } else if b < a {
      Pow16Increasing(b, a);
    }
  }

  /** Values in [16^15, 16^16) take exactly 16 digits. */
  lemma SixteenDigits(n: nat)
    requires Pow16(15) <= n < Pow16(16)
    ensures |FormatHex(n)| == 16
  {
    FormatHexLength(n);
    var len := |FormatHex(n)|;
    Pow16Order(15, len);
    Pow16Order(len - 1, 16);
  }

  /** `FormatInt` reads back as the integer it rendered, negative or not. */
  lemma FormatIntRoundTrip(i: int)
    ensures ParseInt(FormatInt(i)) == i
  {
    var n := if i < 0 then -i else i;
    FormatHexRoundTrip(n);
    FormatHexNoLeadingZero(n);
    if i < 0 {
      assert FormatInt(i)[1..] == FormatHex(n);
    }
  }
}

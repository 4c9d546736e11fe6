/**
 * Fixed-width ASCII decimal digits, as `NewSeriesID` writes them, and their
 * value read back.
 */
module Decimal {
  import opened GoInt
  import opened Octets

  function Pow10(k: nat): (p: nat)
    ensures p >= 1
  {
    if k == 0 then 1 else 10 * Pow10(k - 1)
  }

  /** Digit j of n, counting from the least significant (`n / 10^j % 10`). */
  function Digit(n: nat, j: nat): (d: nat)
    ensures d < 10
  {
    n / Pow10(j) % 10
  }

  /** `'0' + byte(d)`. */
  function DigitByte(d: int): (b: byte)
    requires 0 <= d < 10
    ensures IsDigit(b)
  {
    ('0' as int + d) as byte
  }

  /** The last k digits of n, most significant first. */
  function MsbDigits(n: nat, k: nat): (s: seq<byte>)
    ensures |s| == k
  {
    seq(k, i requires 0 <= i < k => DigitByte(Digit(n, k - 1 - i)))
  }

  /** The last k digits of n, least significant first. */
  function LsbDigits(n: nat, k: nat): (s: seq<byte>)
    ensures |s| == k
  {
    seq(k, i requires 0 <= i < k => DigitByte(Digit(n, i)))
  }

  predicate AllDigits(s: seq<byte>)
  {
    forall i :: 0 <= i < |s| ==> IsDigit(s[i])
  }

  /** The number that ASCII decimal digits spell, most significant first. */
  function DecimalValue(s: seq<byte>): nat
    requires AllDigits(s)
  {
    if s == [] then 0 else 10 * DecimalValue(s[..|s| - 1]) + (s[|s| - 1] as int - '0' as int)
  }

  /** Dividing by a then by b is dividing by a * b; the remainders combine likewise. */
  lemma DivDiv(n: nat, a: nat, b: nat)
    requires a > 0 && b > 0
    ensures n / a / b == n / (a * b)
    ensures n % (a * b) == a * (n / a % b) + n % a
  {
    var q1, r1 := n / a, n % a;
    var q2, r2 := q1 / b, q1 % b;
    var r := a * r2 + r1;
    assert n == (a * b) * q2 + r by {
      MulSplit(a, b, q2, r2);
    }
    assert r < a * b by {
      MulBelow(a, r2, b);
    }
    DivModOfSplit(n, q2, r, a * b);
  }

  lemma MulSplit(a: int, b: int, q: int, r: int)
    ensures a * (b * q + r) == (a * b) * q + a * r
  {
  }

  /** r < b gives a * r + (anything below a) < a * b. */
  lemma MulBelow(a: nat, r: nat, b: nat)
    requires r < b
    ensures a * r + a <= a * b
  {
    assert a * b - a * r == a * (b - r);
    if a > 0 {
      MulMonotone(a, b - r);
    }
  }

  /** Digit j + 1 of n is digit j of n / 10. */
  lemma DigitOfTenth(n: nat, j: nat)
    ensures Digit(n, j + 1) == Digit(n / 10, j)
  {
    DivDiv(n, 10, Pow10(j));
  }

  /** The loop step of `NewSeriesID`: `x / 10^j / 10 == x / 10^(j+1)`. */
  lemma DivPow10Step(n: nat, j: nat)
    ensures n / Pow10(j) / 10 == n / Pow10(j + 1)
  {
    DivDiv(n, Pow10(j), 10);
  }

  /** The k digits written most significant first read back as n modulo 10^k. */
  lemma {:induction false} MsbDigitsValue(n: nat, k: nat)
    ensures AllDigits(MsbDigits(n, k))
    ensures DecimalValue(MsbDigits(n, k)) == n % Pow10(k)
  {
    var s := MsbDigits(n, k);
    if k > 0 {
      var prefix := MsbDigits(n / 10, k - 1);
      forall i | 0 <= i < k - 1
        ensures s[i] == prefix[i]
      {
        DigitOfTenth(n, k - 2 - i);
      }
      assert s[..k - 1] == prefix;
      MsbDigitsValue(n / 10, k - 1);
      DivDiv(n, 10, Pow10(k - 1));
      assert s[k - 1] == DigitByte(Digit(n, 0));
    }
  }

  /** Digits written least significant first are the most-significant-first digits reversed. */
  lemma LsbIsReversedMsb(n: nat, k: nat)
    ensures Reverse(LsbDigits(n, k)) == MsbDigits(n, k)
  {
    ReverseAt(LsbDigits(n, k));
  }

  lemma {:induction false} ReverseAt(s: seq<byte>)
    ensures forall i :: 0 <= i < |s| ==> Reverse(s)[i] == s[|s| - 1 - i]
  {
    if s != [] {
      ReverseAt(s[1..]);
    }
  }
}

/**
 * Time-based identifiers: `NewID` (milliseconds scaled by 10^6 plus a random
 * remainder), `NewStringID` (its base-16 text) and `NewSeriesID` (a 26-digit
 * timestamp, microseconds and random digits).
 */
module Ids {
  import opened GoInt
  import opened Octets
  import opened Entropy
  import opened Decimal
  import Hex
  import Ranges

  const Million: int := 1_000_000

  /** The last millisecond clock reading for which `millis*1000000 + 999999` fits an int64. */
  const MaxMillis: int := (Int64Max - (Million - 1)) / Million

  /** From this millisecond on (July 2006) every ID is at least 16^15 and so takes 16 hex digits. */
  const FirstSixteenDigitMillis: int := 1_152_921_504_607

  /** The random part of `NewID`: the 8 bytes read little-endian modulo 10^6, or the fallback's remainder. */
  function RandomPart(d: ReadDraw): (r: int)
    requires ValidReadDraw(d)
    ensures -Million < r < Million
    ensures NonNegativeReadDraw(d) ==> 0 <= r < Million
    ensures d.ReadOk? ==> r == LittleEndian(d.b) % Million
    ensures d.ReadErr? && NonNegativeReadDraw(d) ==> r == Int63(d.fallback) % Million
  {
    match d
    case ReadOk(b) => LittleEndian(b) % Million
    case ReadErr(f) => Rem(Int63(f), Million)
  }

  /** `NewID()` for a clock reading of `millis` (`UnixMilli`) and the outcome `d` of `rand.Read`; Go's int64 arithmetic wraps. */
  function NewID(millis: int, d: ReadDraw): (id: int)
    requires IsInt64(millis) && ValidReadDraw(d)
    ensures IsInt64(id)
  {
    Wrap64(Wrap64(millis * Million) + RandomPart(d))
  }

  /** `NewStringID()`: the base-16 text of the ID. */
  function NewStringID(millis: int, d: ReadDraw): (s: string)
    requires IsInt64(millis) && ValidReadDraw(d)
    ensures |s| > 0 && (s[0] == '-' <==> NewID(millis, d) < 0)
    ensures s[0] == '-' ==> Hex.AllHex(s[1..])
    ensures s[0] != '-' ==> Hex.AllHex(s)
    ensures Hex.ParseInt(s) == NewID(millis, d)
  {
    Hex.FormatIntRoundTrip(NewID(millis, d));
    Hex.FormatInt(NewID(millis, d))
  }

  /**
   * Within the int64 clock range the ID is `millis*10^6 + r` with r in
   * [0, 10^6): dividing by 10^6 gives back the millisecond and the
   * remainder is the random part.
   */
  lemma NewIDSplits(millis: int, d: ReadDraw)
    requires 0 <= millis <= MaxMillis && ValidReadDraw(d) && NonNegativeReadDraw(d)
    ensures NewID(millis, d) == millis * Million + RandomPart(d)
    ensures 0 <= RandomPart(d) < Million
    ensures NewID(millis, d) / Million == millis
    ensures NewID(millis, d) % Million == RandomPart(d)
  {
    DivModOfSplit(millis * Million + RandomPart(d), millis, RandomPart(d), Million);
  }

  /** When `rand.Read` succeeds the random part is the little-endian value of its 8 bytes modulo 10^6. */
  lemma NewIDRandomBytes(millis: int, b: seq<byte>)
    requires 0 <= millis <= MaxMillis && |b| == 8
    ensures NewID(millis, ReadOk(b)) % Million == LittleEndian(b) % Million
    ensures LittleEndian(b) == BigEndian(Reverse(b)) < TwoTo64
  {
    NewIDSplits(millis, ReadOk(b));
    LittleEndianIsReversedBigEndian(b);
    assert Pow256(8) == TwoTo64;
  }

  /** IDs from a later millisecond are larger, whatever the random parts. */
  lemma NewIDOrderedByMillis(m1: int, d1: ReadDraw, m2: int, d2: ReadDraw)
    requires 0 <= m1 < m2 <= MaxMillis
    requires ValidReadDraw(d1) && NonNegativeReadDraw(d1)
    requires ValidReadDraw(d2) && NonNegativeReadDraw(d2)
    ensures NewID(m1, d1) < NewID(m2, d2)
  {
    NewIDSplits(m1, d1);
    NewIDSplits(m2, d2);
  }

  /** From July 2006 until the int64 range runs out the string ID is 16 lower-case hex digits. */
  lemma NewStringIDIsSixteenDigits(millis: int, d: ReadDraw)
    requires FirstSixteenDigitMillis <= millis <= MaxMillis
    requires ValidReadDraw(d) && NonNegativeReadDraw(d)
    ensures |NewStringID(millis, d)| == 16
    ensures Hex.AllHex(NewStringID(millis, d))
  {
    NewIDSplits(millis, d);
    var id := NewID(millis, d);
    assert Hex.Pow16(15) == 0x1000_0000_0000_0000;
    assert Hex.Pow16(16) == 0x1_0000_0000_0000_0000;
    Hex.SixteenDigits(id);
    Hex.FormatHexRoundTrip(id);
  }

  /** The six digits of `micro` as `NewSeriesID` writes them, one expression per byte. */
  lemma SixDigitsMsb(m: nat)
    ensures MsbDigits(m, 6) == [DigitByte(m / 100000 % 10), DigitByte(m / 10000 % 10), DigitByte(m / 1000 % 10),
                                DigitByte(m / 100 % 10), DigitByte(m / 10 % 10), DigitByte(m % 10)]
  {
    var s := MsbDigits(m, 6);
    assert Pow10(5) == 100000 && Digit(m, 5) == m / 100000 % 10 && s[0] == DigitByte(Digit(m, 5));
    assert Pow10(4) == 10000 && Digit(m, 4) == m / 10000 % 10 && s[1] == DigitByte(Digit(m, 4));
    assert Pow10(3) == 1000 && Digit(m, 3) == m / 1000 % 10 && s[2] == DigitByte(Digit(m, 3));
    assert Pow10(2) == 100 && Digit(m, 2) == m / 100 % 10 && s[3] == DigitByte(Digit(m, 2));
    assert Pow10(1) == 10 && Digit(m, 1) == m / 10 % 10 && s[4] == DigitByte(Digit(m, 1));
    assert Pow10(0) == 1 && Digit(m, 0) == m % 10 && s[5] == DigitByte(Digit(m, 0));
  }

  /** A value below 10^6 written as six digits, in either order, reads back as itself. */
  lemma SixDigitsReadBack(m: nat)
    requires m < Million
    ensures AllDigits(MsbDigits(m, 6)) && DecimalValue(MsbDigits(m, 6)) == m
    ensures Reverse(LsbDigits(m, 6)) == MsbDigits(m, 6)
  {
    MsbDigitsValue(m, 6);
    assert Pow10(6) == Million;
    LsbIsReversedMsb(m, 6);
  }

  /** Bytes 14..19: the microseconds, most significant digit first. */
  method PutMicros(buf: array<byte>, micro: nat)
    requires buf.Length == 26
    modifies buf
    ensures buf[14..20] == MsbDigits(micro, 6)
    ensures buf[..14] == old(buf[..14]) && buf[20..] == old(buf[20..])
  {
    buf[14] := DigitByte(micro / 100000 % 10);
    buf[15] := DigitByte(micro / 10000 % 10);
    buf[16] := DigitByte(micro / 1000 % 10);
    buf[17] := DigitByte(micro / 100 % 10);
    buf[18] := DigitByte(micro / 10 % 10);
    buf[19] := DigitByte(micro % 10);
    SixDigitsMsb(micro);
  }

  /** Bytes 20..25: the random value, least significant digit first, dividing by 10 after each. */
  method PutRandom(buf: array<byte>, r: nat)
    requires buf.Length == 26
    modifies buf
    ensures buf[20..] == LsbDigits(r, 6)
    ensures buf[..20] == old(buf[..20])
  {
    var random := r;
    for i := 20 to 26
      invariant random == r / Pow10(i - 20)
      invariant buf[20..i] == LsbDigits(r, i - 20)
      invariant buf[..20] == old(buf[..20])
    {
      buf[i] := DigitByte(random % 10);
      DivPow10Step(r, i - 20);
      random := random / 10;
    }
  }

  /** The 26-byte buffer after `copy(id[:], t.Format(...))`: at most 14 timestamp bytes, zeros after them. */
  method StampBuffer(stamp: seq<byte>) returns (buf: array<byte>)
    ensures fresh(buf) && buf.Length == 26
    ensures var n := if |stamp| < 14 then |stamp| else 14;
      buf[..n] == stamp[..n] && forall j :: n <= j < 26 ==> buf[j] == 0
  {
    buf := new byte[26](_ => 0);
    var n := if |stamp| < 14 then |stamp| else 14;
    for i := 0 to n
      invariant buf[..i] == stamp[..i]
      invariant forall j :: i <= j < 26 ==> buf[j] == 0
    {
      buf[i] := stamp[i];
    }
  }

  /**
   * `NewSeriesID()` for a clock reading whose `Format("20060102150405")` is
   * `stamp` and whose `Nanosecond()` is `nanosecond`, with `draw` the outcome
   * of the draw behind `Int(0, 999999)`.
   */
  method NewSeriesID(stamp: seq<byte>, nanosecond: int, draw: IntDraw) returns (id: seq<byte>)
    requires 0 <= nanosecond < 1_000_000_000
    requires ValidIntDraw(draw, Million) && NonNegativeIntDraw(draw)
    ensures |id| == 26
    ensures var n := if |stamp| < 14 then |stamp| else 14;
      id[..n] == stamp[..n] && forall i :: n <= i < 14 ==> id[i] == 0
    ensures id[14..20] == MsbDigits(nanosecond / 1000, 6)
    ensures id[20..] == LsbDigits(Ranges.Int([0, 999999], draw), 6)
    ensures AllDigits(id[14..20]) && DecimalValue(id[14..20]) == nanosecond / 1000
    ensures AllDigits(Reverse(id[20..])) && DecimalValue(Reverse(id[20..])) == Ranges.Int([0, 999999], draw)
    ensures |stamp| >= 14 && AllDigits(stamp[..14]) ==> AllDigits(id)
  {
    var buf := StampBuffer(stamp);
    ghost var n := if |stamp| < 14 then |stamp| else 14;
    ghost var head := buf[..14];
    assert forall j :: n <= j < 14 ==> head[j] == 0;

    var micro := nanosecond / 1000;
    PutMicros(buf, micro);
    assert buf[..14] == head;
    ghost var front := buf[..20];
    assert front[..14] == head;
    var random := Ranges.Int([0, 999999], draw);
    PutRandom(buf, random);
    id := buf[..];

    assert id[..20] == front;
    assert id[..14] == front[..14];
    SixDigitsReadBack(micro);
    SixDigitsReadBack(random);
    if |stamp| >= 14 && AllDigits(stamp[..14]) {
      forall i | 0 <= i < 26
        ensures IsDigit(id[i])
      {
        if i < 14 {
          assert id[i] == stamp[..14][i];
        } else if i < 20 {
          assert id[i] == id[14..20][i - 14];
        } else {
          assert id[i] == LsbDigits(random, 6)[i - 20];
        }
      }
    }
  }
}

/**
 * The library's random draws. `crypto/rand` and the clock are outside the
 * model: each draw is a parameter recording what the call returned, and the
 * functions here say what the library does with it.
 */
module Entropy {
  import opened GoInt
  import opened Octets

  /** What `lockedRandSource.Int63` saw: 8 bytes from `rand.Read`, or a failed read and the clock's `UnixNano`. */
  datatype Fallback = Int63Read(b: seq<byte>) | Int63Clock(unixNano: int)

  /** Outcome of `rand.Int(rand.Reader, bound)`: a value, or an error and the fallback source's value. */
  datatype IntDraw = IntOk(n: int) | IntErr(fallback: Fallback)

  /** Outcome of `rand.Read` on an 8-byte buffer: the bytes, or an error and the fallback source's value. */
  datatype ReadDraw = ReadOk(b: seq<byte>) | ReadErr(fallback: Fallback)

  predicate ValidFallback(f: Fallback) {
    match f
    case Int63Read(b) => |b| == 8
    case Int63Clock(t) => IsInt64(t)
  }

  /** The fallback value is non-negative unless the clock reads before 1970. */
  predicate NonNegativeFallback(f: Fallback) {
    f.Int63Read? || f.unixNano >= 0
  }

  /** `rand.Int` only ever returns a value in [0, bound). */
  predicate ValidIntDraw(d: IntDraw, bound: int) {
    match d
    case IntOk(n) => 0 <= n < bound
    case IntErr(f) => ValidFallback(f)
  }

  predicate NonNegativeIntDraw(d: IntDraw) {
    d.IntOk? || NonNegativeFallback(d.fallback)
  }

  predicate ValidReadDraw(d: ReadDraw) {
    match d
    case ReadOk(b) => |b| == 8
    case ReadErr(f) => ValidFallback(f)
  }

  predicate NonNegativeReadDraw(d: ReadDraw) {
    d.ReadOk? || NonNegativeFallback(d.fallback)
  }

  /** Clearing bit 63 of a 64-bit unsigned value (`& (1<<63 - 1)`). */
  function Mask63(x: nat): (r: nat)
    requires x < TwoTo64
    ensures r < TwoTo63
    ensures x < TwoTo63 ==> r == x
    ensures x >= TwoTo63 ==> r == x - TwoTo63
  {
    if x >= TwoTo63 then
      DivModOfSplit(x, 1, x - TwoTo63, TwoTo63);
      x % TwoTo63
    else
      x % TwoTo63
  }

  /** `lockedRandSource.Int63`: the 8 bytes read big-endian with the top bit cleared, or the clock. */
  function Int63(f: Fallback): (r: int)
    requires ValidFallback(f)
    ensures IsInt64(r)
    ensures f.Int63Read? ==> 0 <= r < TwoTo63
    ensures f.Int63Clock? ==> r == f.unixNano
  {
    match f
    case Int63Read(b) => Mask63(BigEndian(b))
    case Int63Clock(t) => t
  }

  /** Masking clears exactly the top bit: the result is the decoding of the bytes with bit 7 of the first byte cleared. */
  lemma Int63ClearsTopBit(b: seq<byte>)
    requires |b| == 8
    ensures Int63(Int63Read(b)) == BigEndian([b[0] % 0x80] + b[1..])
    ensures Int63(Int63Read(b)) == BigEndian(b) - (if b[0] >= 0x80 then TwoTo63 else 0)
  {
    var rest := b[1..];
    var cleared := [b[0] % 0x80] + rest;
    assert cleared[1..] == rest;
    BigEndianHead(b);
    BigEndianHead(cleared);
    assert |rest| == 7 && Pow256(7) == 0x100_0000_0000_0000;
    TopBitSplit(b[0] as nat, BigEndian(rest));
  }

  /** For a top byte x over seven lower bytes, reducing modulo 2^63 clears bit 7 of x. */
  lemma TopBitSplit(x: nat, rest: nat)
    requires x < 0x100 && rest < 0x100_0000_0000_0000
    ensures (x * 0x100_0000_0000_0000 + rest) % TwoTo63 == (x % 0x80) * 0x100_0000_0000_0000 + rest
    ensures x * 0x100_0000_0000_0000 + rest - (if x >= 0x80 then TwoTo63 else 0)
      == (x % 0x80) * 0x100_0000_0000_0000 + rest
  {
    var low := (x % 0x80) * 0x100_0000_0000_0000 + rest;
    if x >= 0x80 {
      DivModOfSplit(x * 0x100_0000_0000_0000 + rest, 1, low, TwoTo63);
    } else {
      DivModOfSplit(x * 0x100_0000_0000_0000 + rest, 0, low, TwoTo63);
    }
  }

  /** The first of 8 bytes weighs 2^56. */
  lemma BigEndianHead(b: seq<byte>)
    requires |b| == 8
    ensures BigEndian(b) == b[0] as nat * 0x100_0000_0000_0000 + BigEndian(b[1..])
  {
    assert Pow256(7) == 0x100_0000_0000_0000;
  }

  /**
   * The index a draw yields for `rand.Int(rand.Reader, bound)` with the
   * fallback `defaultRand.Int63() % bound` (Go's truncating remainder).
   */
  function Pick(d: IntDraw, bound: int): (r: int)
    requires bound > 0 && ValidIntDraw(d, bound)
    ensures NonNegativeIntDraw(d) ==> 0 <= r < bound
    ensures -bound < r < bound
    ensures d.IntOk? ==> r == d.n
    ensures d.IntErr? && NonNegativeIntDraw(d) ==> r == Int63(d.fallback) % bound
  {
    match d
    case IntOk(n) => n
    case IntErr(f) => Rem(Int63(f), bound)
  }
}

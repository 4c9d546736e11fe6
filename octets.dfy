/**
 * Bytes and the fixed-width byte decodings of Go's `encoding/binary`
 * (`BigEndian.Uint64`, `LittleEndian.Uint64`).
 */
module Octets {

  newtype byte = b: int | 0 <= b < 0x100

  /** ASCII classes. */
  predicate IsDigit(c: byte) { '0' as int <= c as int <= '9' as int }
  predicate IsUpper(c: byte) { 'A' as int <= c as int <= 'Z' as int }
  predicate IsLower(c: byte) { 'a' as int <= c as int <= 'z' as int }

  /** The bytes of an ASCII string, as Go's `[]byte("...")` gives them. */
  function FromAscii(s: string): (r: seq<byte>)
    requires forall i :: 0 <= i < |s| ==> s[i] as int < 0x80
    ensures |r| == |s|
    ensures forall i :: 0 <= i < |s| ==> r[i] as int == s[i] as int
  {
    seq(|s|, i requires 0 <= i < |s| => s[i] as int as byte)
  }

  /** Go's `string(b)` for bytes that are all ASCII. */
  function ToAscii(b: seq<byte>): (s: string)
    requires forall i :: 0 <= i < |b| ==> b[i] < 0x80
    ensures |s| == |b|
    ensures forall i :: 0 <= i < |b| ==> s[i] as int == b[i] as int
  {
    seq(|b|, i requires 0 <= i < |b| => b[i] as int as char)
  }

  function Pow256(k: nat): (p: nat)
    ensures p >= 1
  {
    if k == 0 then 1 else 256 * Pow256(k - 1)
  }

  function Reverse(s: seq<byte>): (r: seq<byte>)
    ensures |r| == |s|
  {
    if s == [] then [] else Reverse(s[1..]) + [s[0]]
  }

  /** The unsigned value of `b` read most-significant byte first. */
  function BigEndian(b: seq<byte>): (v: nat)
    ensures v < Pow256(|b|)
  {
    if b == [] then 0
    else
      ByteTimesPower(b[0], Pow256(|b| - 1));
      b[0] as nat * Pow256(|b| - 1) + BigEndian(b[1..])
  }

  /** The unsigned value of `b` read least-significant byte first. */
  function LittleEndian(b: seq<byte>): (v: nat)
    ensures v < Pow256(|b|)
  {
    if b == [] then 0 else b[0] as nat + 256 * LittleEndian(b[1..])
  }

  /** A byte's weight at position p stays below the next byte's. */
  lemma ByteTimesPower(x: byte, p: nat)
    ensures x as nat * p <= 255 * p
  {
  }

  /** Appending a byte shifts the big-endian value up by one byte. */
  lemma {:induction false} BigEndianSnoc(s: seq<byte>, x: byte)
    ensures BigEndian(s + [x]) == 256 * BigEndian(s) + x as nat
  {
    if s == [] {
      assert s + [x] == [x];
    } else {
      assert (s + [x])[1..] == s[1..] + [x];
      BigEndianSnoc(s[1..], x);
      calc {
        BigEndian(s + [x]);
        s[0] as nat * Pow256(|s|) + BigEndian(s[1..] + [x]);
        s[0] as nat * (256 * Pow256(|s| - 1)) + 256 * BigEndian(s[1..]) + x as nat;
        { assert s[0] as nat * (256 * Pow256(|s| - 1)) == 256 * (s[0] as nat * Pow256(|s| - 1)); }
        256 * BigEndian(s) + x as nat;
      }
    }
  }

  /** Little-endian decoding is big-endian decoding of the reversed bytes. */
  lemma {:induction false} LittleEndianIsReversedBigEndian(b: seq<byte>)
    ensures LittleEndian(b) == BigEndian(Reverse(b))
  {
    if b != [] {
      LittleEndianIsReversedBigEndian(b[1..]);
      BigEndianSnoc(Reverse(b[1..]), b[0]);
    }
  }

}

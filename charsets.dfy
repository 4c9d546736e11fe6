/**
 * Random strings over a selectable character set (`Bytes` and `String`):
 * the selector, the pre-computed table of sets, the bit rule that builds
 * the sets the table leaves out, and the fill loop.
 */
module Charsets {
  import opened Octets
  import opened Entropy

  /** Selector flags; a selector is their bitwise union. */
  const RNum: int := 1
  const RUpper: int := 2
  const RLower: int := 4
  const RAll: int := 7

  const DefaultLength: int := 6

  datatype Option<T> = None | Some(value: T)

  const NumChars: seq<byte> := FromAscii("0123456789")
  const UpperChars: seq<byte> := FromAscii("ABCDEFGHIJKLMNOPQRSTUVWXYZ")
  const LowerChars: seq<byte> := FromAscii("abcdefghijklmnopqrstuvwxyz")

  /** The 62 bytes "0-9A-Za-z" in that order, given position by position. */
  const AllChars: seq<byte> :=
    seq(62, i requires 0 <= i < 62 =>
      (if i < 10 then '0' as int + i
       else if i < 36 then 'A' as int + (i - 10)
       else 'a' as int + (i - 36)) as byte)

  /** The pre-computed sets, indexed by selector; `None` where the set is built on demand. */
  const CharSets: seq<Option<seq<byte>>> :=
    [None, Some(NumChars), Some(UpperChars), None, Some(LowerChars), None, None, Some(AllChars)]

  /** `kind & flag != 0` on a selector that fits a byte. */
  predicate HasBit(kind: int, flag: int)
    requires 0 <= kind < 0x100 && 0 <= flag < 0x100
    ensures 0 <= kind < 8 && (flag == 1 || flag == 2 || flag == 4) ==>
      (HasBit(kind, flag) <==> (kind / flag) % 2 == 1)
  {
    (kind as bv8) & (flag as bv8) != 0
  }

  /** A selector outside 1..7 means every category. */
  function NormalizeKind(kind: int): (k: int)
    ensures 1 <= k <= 7
    ensures k != RAll ==> k == kind
    ensures 1 <= kind <= 7 ==> k == kind
  {
    if kind > 7 || kind < 1 then RAll else kind
  }

  /** The requested length, or the default when it is missing or not positive. */
  function ResolvedLength(bytesLen: seq<int>): (n: int)
    ensures n > 0
    ensures n != DefaultLength ==> |bytesLen| > 0 && n == bytesLen[0]
    ensures |bytesLen| > 0 && bytesLen[0] > 0 ==> n == bytesLen[0]
  {
    if |bytesLen| > 0 && bytesLen[0] > 0 then bytesLen[0] else DefaultLength
  }

  /** The bit rule: digits, then upper case, then lower case, each when its flag is set. */
  function BitRule(kind: int): (chars: seq<byte>)
    requires 0 <= kind < 0x100
    ensures |chars| == (if HasBit(kind, RNum) then 10 else 0)
      + (if HasBit(kind, RUpper) then 26 else 0) + (if HasBit(kind, RLower) then 26 else 0)
  {
    (if HasBit(kind, RNum) then NumChars else [])
    + (if HasBit(kind, RUpper) then UpperChars else [])
    + (if HasBit(kind, RLower) then LowerChars else [])
  }

  /** The set a selector draws from. */
  function Charset(kind: int): (chars: seq<byte>)
    ensures 10 <= |chars| <= 62
  {
    KindBits(NormalizeKind(kind));
    BitRule(NormalizeKind(kind))
  }

  /** A run of n consecutive byte values starting at lo. */
  function Run(lo: int, n: nat): (r: seq<byte>)
    requires 0 <= lo && lo + n <= 0x100
    ensures |r| == n
    ensures forall c :: c in r <==> lo <= c as int < lo + n
  {
    var r := seq(n, i requires 0 <= i < n => (lo + i) as byte);
    assert forall c: byte :: lo <= c as int < lo + n ==> c in r by {
      forall c: byte | lo <= c as int < lo + n
        ensures c in r
      {
        assert r[c as int - lo] == c;
      }
    }
    r
  }

  lemma BaseSetsAreRuns()
    ensures NumChars == Run('0' as int, 10)
    ensures UpperChars == Run('A' as int, 26)
    ensures LowerChars == Run('a' as int, 26)
    ensures AllChars[..10] == NumChars
    ensures AllChars[10..36] == UpperChars
    ensures AllChars[36..] == LowerChars
  {
  }

  /** The 62-byte table entry is exactly digits, upper case and lower case concatenated. */
  lemma AllCharsIsConcat()
    ensures AllChars == NumChars + UpperChars + LowerChars
  {
    BaseSetsAreRuns();
    assert AllChars == AllChars[..10] + AllChars[10..36] + AllChars[36..];
  }

  /** The flags of a normalised selector are its binary digits, and at least one is set. */
  lemma KindBits(k: int)
    requires 1 <= k <= 7
    ensures HasBit(k, RNum) <==> k % 2 == 1
    ensures HasBit(k, RUpper) <==> k % 4 >= 2
    ensures HasBit(k, RLower) <==> k >= 4
    ensures HasBit(k, RNum) || HasBit(k, RUpper) || HasBit(k, RLower)
  {
    if k == 1 {
    } else if k == 2 {
    } else if k == 3 {
    } else if k == 4 {
    } else if k == 5 {
    } else if k == 6 {
    } else {
    }
  }

  /** Every table entry agrees with the bit rule; the rule is used exactly for selectors 3, 5 and 6. */
  lemma TableAgreesWithRule(k: int)
    requires 1 <= k <= 7
    ensures CharSets[k].Some? ==> CharSets[k].value == BitRule(k)
    ensures CharSets[k].None? <==> (k == 3 || k == 5 || k == 6)
  {
    KindBits(k);
    if k == 7 {
      AllCharsIsConcat();
    }
  }

  /** Any selector below 1 or above 7 draws from the 62 bytes of `allChars`. */
  lemma OutOfRangeKindIsAll(kind: int)
    requires kind < 1 || kind > 7
    ensures Charset(kind) == AllChars
    ensures |Charset(kind)| == 62
  {
    KindBits(RAll);
    AllCharsIsConcat();
  }

  /** The combined sets built by the rule: 3 is `0-9A-Z`, 5 is `0-9a-z`, 6 is `A-Za-z`. */
  lemma CombinedSets()
    ensures Charset(3) == NumChars + UpperChars && |Charset(3)| == 36
    ensures Charset(5) == NumChars + LowerChars && |Charset(5)| == 36
    ensures Charset(6) == UpperChars + LowerChars && |Charset(6)| == 52
  {
    KindBits(3);
    KindBits(5);
    KindBits(6);
  }

  /** A byte is in the set of a selector exactly when it is in a category whose flag the selector sets. */
  lemma CharsetMembership(kind: int, c: byte)
    ensures var k := NormalizeKind(kind);
      c in Charset(kind) <==>
        (HasBit(k, RNum) && IsDigit(c)) || (HasBit(k, RUpper) && IsUpper(c)) || (HasBit(k, RLower) && IsLower(c))
  {
    BaseSetsAreRuns();
  }

  /** Every draw is one `rand.Int` (or its fallback) over the set's size, and the fallback clock is not before 1970. */
  predicate ValidDraws(kind: int, draws: seq<IntDraw>)
  {
    forall i :: 0 <= i < |draws| ==>
      ValidIntDraw(draws[i], |Charset(kind)|) && NonNegativeIntDraw(draws[i])
  }

  /** The set for a normalised selector: the table entry, or the bit rule's concatenation where the entry is nil. */
  method SelectChars(k: int) returns (chars: seq<byte>)
    requires 1 <= k <= 7
    ensures chars == BitRule(k)
  {
    TableAgreesWithRule(k);
    match CharSets[k] {
      case Some(cs) =>
        chars := cs;
      case None =>
        var combined: seq<byte> := [];
        if HasBit(k, RNum) {
          combined := combined + NumChars;
        }
        if HasBit(k, RUpper) {
          combined := combined + UpperChars;
        }
        if HasBit(k, RLower) {
          combined := combined + LowerChars;
        }
        chars := combined;
    }
  }

  /**
   * `Bytes(kind, bytesLen...)`: resolve the selector and the length, take the
   * set from the table or build it by the bit rule, and fill a buffer with
   * one draw per byte. `draws[i]` is what the draw for byte i returned.
   */
  method Bytes(kind: int, bytesLen: seq<int>, draws: seq<IntDraw>) returns (result: seq<byte>)
    requires |draws| == ResolvedLength(bytesLen)
    requires ValidDraws(kind, draws)
    ensures |result| == ResolvedLength(bytesLen)
    ensures forall i :: 0 <= i < |result| ==>
      0 <= Pick(draws[i], |Charset(kind)|) < |Charset(kind)|
      && result[i] == Charset(kind)[Pick(draws[i], |Charset(kind)|)]
    ensures forall i :: 0 <= i < |result| && draws[i].IntOk? ==> result[i] == Charset(kind)[draws[i].n]
    ensures forall i :: 0 <= i < |result| ==> result[i] in Charset(kind)
  {
    var k := kind;
    if k > 7 || k < 1 {
      k := RAll;
    }

    var length := DefaultLength;
    if |bytesLen| > 0 && bytesLen[0] > 0 {
      length := bytesLen[0];
    }

    var chars := SelectChars(k);
    assert chars == Charset(kind);

    var buf := new byte[length];
    for i := 0 to length
      invariant forall j :: 0 <= j < i ==> buf[j] == chars[Pick(draws[j], |chars|)]
    {
      var n := Pick(draws[i], |chars|);
      buf[i] := chars[n];
    }
    result := buf[..];
  }

  /** `String(kind, size...)`: the bytes of `Bytes` as text. */
  method String(kind: int, size: seq<int>, draws: seq<IntDraw>) returns (s: string)
    requires |draws| == ResolvedLength(size)
    requires ValidDraws(kind, draws)
    ensures |s| == ResolvedLength(size)
    ensures forall i :: 0 <= i < |s| ==>
      0 <= Pick(draws[i], |Charset(kind)|) < |Charset(kind)|
      && s[i] as int == Charset(kind)[Pick(draws[i], |Charset(kind)|)] as int
    ensures forall i :: 0 <= i < |s| && draws[i].IntOk? ==> s[i] as int == Charset(kind)[draws[i].n] as int
  {
    var b := Bytes(kind, size, draws);
    forall i | 0 <= i < |b|
      ensures b[i] < 0x80
    {
      CharsetMembership(kind, b[i]);
    }
    s := ToAscii(b);
  }
}

# buuid, modelled in Dafny

`buuid` is a small Go library (one file, `main.go`) that generates random
values: strings over a selectable character set (`Bytes`, `String`), integers
in an inclusive range (`Int`), and time-based identifiers (`NewID`,
`NewStringID`, `NewSeriesID`). This project models what the library does with
each random draw and clock reading, and proves the properties its comments
promise.

Randomness and time are not modelled. Every call to `crypto/rand` (`rand.Int`,
`rand.Read`) and to the clock (`time.Now`) is a parameter that records what the
call returned:

- `IntDraw`: `rand.Int` either succeeds, or fails so that the code uses the fallback.
- `ReadDraw`: `rand.Read` either returns 8 bytes, or fails so that the code uses the fallback.
- `Fallback`: what `lockedRandSource.Int63` itself saw. That is either 8 bytes from its own `rand.Read`, or the clock's `UnixNano`.

The clock inputs are the `UnixMilli` reading, the `Nanosecond` field, and the
14 bytes of `Format("20060102150405")`.

Go's 64-bit `int`, its wrap-around, and its truncating `%` are written out
(`GoInt`). Where the code only uses non-negative operands, Dafny's `%` is used.

Modules, one per part of `main.go`:

- `GoInt`: int64 range and wrap-around, Go's `%`, and uniqueness of division.
- `Octets`: bytes, ASCII classes, and the big- and little-endian decodings of `encoding/binary`.
- `Entropy`: draw outcomes, `lockedRandSource.Int63`, and the index a draw yields.
- `Charsets`: the selector flags, the character-set table, the bit rule, `Bytes` and `String`.
- `Ranges`: the bound normalisation of `Int` and `Int` itself.
- `Decimal`: fixed-width decimal digits and their value.
- `Hex`: `strconv.FormatInt(i, 16)` and reading it back.
- `Ids`: `NewID`, `NewStringID` and `NewSeriesID`.

The code fills buffers in place in `Bytes` (the fill loop) and in
`NewSeriesID` (a 26-byte array). Both are methods over arrays with loop
invariants. `Int`, `NewID`, `NewStringID` and the `Int63` decode are small enough to
write as expressions, so they are functions.

The 62-byte `allChars` literal is given by position (digits, then `A`–`Z`,
then `a`–`z`), because the verifier cannot index a literal that long. The
lemma `AllCharsIsConcat` proves it equals the three short literals
concatenated.

## Model

| member | source | states |
|---|---|---|
| GoInt.Wrap64 | main.go:159 | int64 arithmetic wraps: the result is an int64, congruent to the true value modulo 2^64, and equal to it when it fits |
| GoInt.Rem | main.go:111 | Go's `%` on a positive modulus: in [0, m) and equal to the Euclidean remainder for a non-negative dividend, in (-m, 0] for a negative one |
| GoInt.RemCongruent | main.go:111 | Go's remainder differs from the dividend by a multiple of the modulus; with `Rem`'s range this fixes the value for negative dividends too (`-5 % 11 == -5`) |
| Octets.FromAscii | main.go:22-24 | `[]byte("...")` of an ASCII literal has the literal's length and character codes |
| Octets.ToAscii | main.go:48 | `string(b)` of ASCII bytes has the same length and codes |
| Octets.BigEndian | main.go:42 | `binary.BigEndian.Uint64`: the value of k bytes read most significant first is below 256^k |
| Octets.LittleEndian | main.go:166 | `binary.LittleEndian.Uint64`: the value of k bytes read least significant first is below 256^k |
| Octets.BigEndianSnoc | main.go:42 | appending a byte multiplies the big-endian value by 256 and adds the byte |
| Octets.LittleEndianIsReversedBigEndian | main.go:166 | the little-endian value of bytes is the big-endian value of the reversed bytes |
| Entropy.Mask63 | main.go:42 | `& (1<<63 - 1)` on a 64-bit value: the result is below 2^63, equal to the value when bit 63 is clear and to the value minus 2^63 when it is set |
| Entropy.Int63 | main.go:34-43 | `Int63` is an int64; after a successful read it is in [0, 2^63); after a failed read it is the clock's `UnixNano` |
| Entropy.Int63ClearsTopBit | main.go:42 | the mask clears exactly the top bit: the value equals the big-endian decode with bit 7 of byte 0 cleared, and the full decode minus 2^63 when that bit was set |
| Entropy.TopBitSplit | main.go:42 | for a top byte over seven lower bytes, the value modulo 2^63 is the value with bit 7 of the top byte cleared |
| Entropy.Pick | main.go:81-85 | the index used for a character: the drawn n when `rand.Int` succeeds, `Int63() % bound` on the fallback path; always in (-bound, bound), and in [0, bound) unless the fallback clock is before 1970 |
| Charsets.NormalizeKind | main.go:54-56 | a selector outside 1..7 becomes `R_All`; inside, the selector is kept |
| Charsets.HasBit | main.go:67-75 | `kind&flag != 0` for a single-bit flag 1, 2 or 4 and a selector 0..7 holds exactly when that binary digit of the selector is 1 |
| Charsets.BitRule | main.go:66-76 | the built set has 10 bytes for `R_NUM`, plus 26 for `R_UPPER`, plus 26 for `R_LOWER`, each counted when its flag is set |
| Charsets.Charset | main.go:54-77 | the set every selector draws from has 10 to 62 bytes, so `% len(chars)` never divides by zero |
| Charsets.ResolvedLength | main.go:58-61 | the length is positive; it is the caller's `bytesLen[0]` when that is present and positive, and otherwise the default 6 |
| Charsets.KindBits | main.go:67-75 | for selectors 1..7, `kind&R_NUM`, `kind&R_UPPER` and `kind&R_LOWER` are its three binary digits, and at least one is set |
| Charsets.BaseSetsAreRuns | main.go:22-25 | `numChars`, `upperChars` and `lowerChars` are the consecutive ASCII runs `0-9`, `A-Z`, `a-z`, and are the three slices of `allChars` |
| Charsets.AllCharsIsConcat | main.go:25 | `allChars` is exactly `numChars + upperChars + lowerChars` |
| Charsets.TableAgreesWithRule | main.go:63-77 | for selectors 1..7, every non-nil table entry (1, 2, 4, 7) equals the bit-driven concatenation, and the entry is nil exactly for 3, 5 and 6 |
| Charsets.OutOfRangeKindIsAll | main.go:54-56 | any selector below 1 or above 7 draws from `allChars`, 62 bytes |
| Charsets.CombinedSets | main.go:66-76 | the built sets: 3 is `0-9A-Z` (36 bytes), 5 is `0-9a-z` (36 bytes), 6 is `A-Za-z` (52 bytes) |
| Charsets.CharsetMembership | main.go:63-77 | a byte is in a selector's set iff it is a digit and `R_NUM` is set, or upper case and `R_UPPER` is set, or lower case and `R_LOWER` is set |
| Charsets.SelectChars | main.go:63-77 | the table lookup, with the appends for nil entries, yields the bit rule's concatenation for every selector 1..7 |
| Charsets.Bytes | main.go:53-89 | the output has the resolved length; byte i is the set's element at the i-th draw's index, which is in range, and is `chars[n]` for the drawn n when `rand.Int` succeeds; every byte is in the set |
| Charsets.String | main.go:47-49 | the string has the resolved length; character i has the code of the set's element at the i-th draw's index, `chars[n]` for the drawn n when `rand.Int` succeeds |
| Ranges.RangeOf | main.go:96-107 | no argument gives [0, 100]; one argument a gives [0, a]; two or more give the first two arguments with the smaller as min and the larger as max |
| Ranges.Span | main.go:109 | `max-min+1` is positive exactly when min <= max |
| Ranges.Returns | main.go:109 | a call that returns has int64 bounds with min <= max |
| Ranges.Int | main.go:93-114 | the result is an int64; on success it is min plus the drawn n; on the fallback path it is `min + Int63() % span`; with a non-negative fallback it lies in [min, max] |
| Ranges.DefaultBounds | main.go:96-100 | no argument gives [0, 100] and the result lies there; one argument a gives [0, a] |
| Ranges.OrderIndependent | main.go:101-106 | `Int(a, b)` and `Int(b, a)` normalise to [min(a,b), max(a,b)] and return the same value for the same draw |
| Ranges.NegativeSingleBoundPanics | main.go:99-109 | `Int(a)` with a < 0 asks `rand.Int` for a bound <= 0, so no call with it returns |
| Ranges.SpanOverflowIsNotPositive | main.go:109 | Go's wrapped `max-min+1` equals the true span when it fits int64 and is <= 0 otherwise, so exactly the spans outside (0, 2^63) make `rand.Int` panic |
| Ranges.PreEpochClockUndershoots | main.go:111 | with a negative `UnixNano` fallback, `Int(10, 20)` can return 5, below min |
| Decimal.DigitByte | main.go:186 | `'0' + byte(d)` for a digit d is an ASCII digit |
| Decimal.DigitOfTenth | main.go:196-197 | digit j+1 of n is digit j of n / 10 |
| Decimal.DivPow10Step | main.go:197 | after j steps of `random /= 10` the value is the original divided by 10^j |
| Decimal.MsbDigitsValue | main.go:186-191 | k digits written most significant first are all ASCII digits and read back as n mod 10^k |
| Decimal.LsbIsReversedMsb | main.go:195-198 | digits written least significant first, reversed, are the most-significant-first digits |
| Hex.HexValue | main.go:171 | a hex digit's value is below 16 and indexes back to that digit |
| Hex.FormatHex | main.go:171 | the base-16 text of a natural number is non-empty and made of lower-case hex digits |
| Hex.FormatInt | main.go:171 | `strconv.FormatInt(i, 16)` is non-empty, starts with '-' iff i < 0, and is hex digits after the sign |
| Hex.FormatHexRoundTrip | main.go:171 | the base-16 text parses back to the number |
| Hex.FormatHexNoLeadingZero | main.go:171 | the text is never empty, and begins with '0' only for 0: there is no padding |
| Hex.FormatHexLength | main.go:171 | the text has the minimal number of digits: n < 16^len, and 16^(len-1) <= n when n > 0 |
| Hex.SixteenDigits | main.go:169 | every value in [16^15, 16^16) takes exactly 16 digits |
| Hex.FormatIntRoundTrip | main.go:171 | `FormatInt(i, 16)` parses back to i, including int64's minimum |
| Ids.RandomPart | main.go:161-166 | the random part of an ID is the little-endian value of the 8 bytes mod 10^6 after a successful read, and `Int63() % 10^6` after a failed one; it lies in (-10^6, 10^6), and in [0, 10^6) unless the fallback clock is before 1970 |
| Ids.NewID | main.go:157-167 | the ID is an int64 (Go's arithmetic wraps) |
| Ids.NewIDSplits | main.go:159-166 | for clock readings within int64 range the ID is millis*10^6 + r with r in [0, 10^6); ID / 10^6 is millis and ID % 10^6 is r |
| Ids.NewIDRandomBytes | main.go:166 | on a successful read, ID % 10^6 is the little-endian value of the 8 bytes mod 10^6; that value is the big-endian value of the reversed bytes and is below 2^64 |
| Ids.NewIDOrderedByMillis | main.go:156-166 | an ID from a later millisecond is larger than one from an earlier one, whatever the random parts |
| Ids.NewStringID | main.go:170-172 | the string ID starts with '-' iff the numeric ID is negative, is hex digits after the sign, and parses back, as base 16, to the numeric ID |
| Ids.NewStringIDIsSixteenDigits | main.go:169 | from millisecond 1152921504607 (July 2006) to the int64 limit, the string ID is 16 lower-case hex digits |
| Ids.SixDigitsMsb | main.go:186-191 | the six expressions `micro/100000%10` … `micro%10` are the six digits of micro, most significant first |
| Ids.SixDigitsReadBack | main.go:184-198 | a value below 10^6 written as six digits reads back as itself; the least-significant-first digits, reversed, are the same digits |
| Ids.StampBuffer | main.go:178-182 | the zeroed 26-byte buffer after `copy(buf[:14], ...)`: the first min(len, 14) timestamp bytes, zeros everywhere else |
| Ids.PutMicros | main.go:185-191 | bytes 14..19 become the six digits of micro, most significant first; no other byte changes |
| Ids.PutRandom | main.go:194-198 | bytes 20..25 become the six digits of the value, least significant first; bytes 0..19 do not change |
| Ids.NewSeriesID | main.go:177-201 | the ID is 26 bytes: the copied timestamp prefix (zeros where it is short), then micro's digits, then the random value's digits reversed. Bytes 14..19 read back as micro and bytes 20..25 reversed read back as `Int(0, 999999)`. All 26 are ASCII digits when the timestamp is |

## Left out

- The draws and the clock are parameters. `crypto/rand` and `time.Now` are not modelled, and neither is the uniformity of the draws. A contract cannot state a distribution.
- The `sync.Mutex` of `lockedRandSource` is not modelled. It only serialises concurrent callers. `Int63` is modelled as the function of what its read returned.
- `Float64` is not modelled. It is floating-point arithmetic on `float64` conversions and a division.
- `t.Format("20060102150405")` is not modelled. Go's layout engine is a library. The 14 timestamp bytes are an input, and `copy` copies at most 14 of them.
- `big.Int` is Dafny's unbounded `int`. `rand.Int` is specified only by its promise that a result lies in [0, bound).
- Go's `int` is taken to be 64 bits wide.
- Charsets.Bytes: requires a fallback clock reading at or after 1970. Before that, `Int63() % len(chars)` is negative and indexing `chars` with it panics.
- Charsets.String: requires a fallback clock reading at or after 1970, for the same reason as `Bytes`.
- Ids.NewSeriesID: requires a fallback clock reading at or after 1970. Before that, `Int(0, 999999)` can be negative (see `Ranges.PreEpochClockUndershoots`), and the digit bytes it writes are then not modelled.
- Ranges.Int: requires `Returns`, so it excludes every call whose span `max-min+1` lies outside (0, 2^63) or whose arguments do not fit an int64. On those calls `rand.Int` panics (see `Ranges.NegativeSingleBoundPanics` and `Ranges.SpanOverflowIsNotPositive`).
- Ranges.Int: its range property is stated only for a fallback clock at or after 1970. `Ranges.PreEpochClockUndershoots` shows the out-of-range value otherwise.

# pvutils buffer and number utilities, in Dafny

This project models the helper layer of pvutils (`src/index.ts`). The ASN.1
and PKI libraries of PeculiarVentures build on it. The model covers:

- **Concatenation and comparison.** `utilConcatBuf` / `utilConcatView` and
  `isEqualBuffer`.
- **Binary strings and byte buffers.** `arrayBufferToString` /
  `stringToArrayBuffer`: one character per byte.
- **Radix conversion.** `utilFromBase` / `utilToBase` convert between a
  number and big-endian digits in base 2^base, one digit per byte.
- **Two's complement.** `utilDecodeTC` runs on a `HexBlock`: it reads
  `valueHex` and appends to `warnings`. `utilEncodeTC` produces the shortest
  two's-complement bytes of a value.
- **BASE64 and base64url.** `toBase64` / `fromBase64`, with the
  `skipPadding`, `skipLeadingZeros` and `cutTailZeros` options.
- **Text renderings.** `bufferToHexCodes` (upper-case hexadecimal codes,
  optionally separated by spaces, then trimmed) and `padNumber` (decimal
  digits padded with '0' on the left).

The modules are `Buffers` (`buffers.dfy`), `Radix` (`radix.dfy`),
`TwosComplement` (`twos_complement.dfy`), `Base64` and `Base64Properties`
(`base64.dfy`), and `Formatting` (`formatting.dfy`).

Each operation of the source is a `method` that follows its loop. The source
builds buffers in fresh `Uint8Array`s, and the methods do the same with a
local `array` before returning its contents as a `seq<byte>`. Each method's
`ensures` ties its result to a specification function:

- `Flatten` for concatenation;
- `Magnitude` and `IsToBaseResult` for the radix conversions;
- `SignedValue` and `IsEncodeTCResult` for two's complement;
- `Encode` and `Decode` for BASE64;
- `Joined` for the hexadecimal text;
- `DecimalString` for padding.

Lemmas then prove what the source promises about those functions: the round
trips, uniqueness, minimality, lengths and alphabets. The bit operations of
the source act on small non-negative numbers whose bits do not overlap, so
the model writes them as `/`, `%`, `*` and `+`. For example, `a << 2 | b >> 4`
becomes `a * 4 + b / 16`.

## Model

| member | source | states |
|---|---|---|
| Buffers.Concat | src/index.ts:168-216 | utilConcatBuf / utilConcatView return the argument buffers back to back, in argument order; the length is the sum of their lengths |
| Buffers.SetAt | src/index.ts:211 | Uint8Array.set copies the view into the target at the offset and keeps the cells before and after it |
| Buffers.FlattenLength | src/index.ts:174-180 | the output length summed in the first loop is the length of the concatenation |
| Buffers.FlattenAt | src/index.ts:183-186 | byte k of argument j lands at the offset where the earlier arguments end (the `prevLength` of `retView.set`) |
| Buffers.TotalLengthMonotone | src/index.ts:183-186 | the running offset never passes the total length, so every `set` fits in the output buffer |
| Buffers.IsEqualBuffer | src/index.ts:317-332 | false when the lengths differ; true exactly when both buffers hold the same bytes |
| Buffers.ArrayBufferToString | src/index.ts:501-510 | the string has one character per byte, whose code is that byte |
| Buffers.StringToArrayBuffer | src/index.ts:512-523 | one byte per character, the character code kept modulo 256 as a Uint8Array store does |
| Buffers.BytesTextRoundTrip | src/index.ts:501-523 | bytes → string → bytes gives the bytes back |
| Buffers.TextBytesRoundTrip | src/index.ts:501-523 | string → bytes → string gives the string back if and only if every character code is below 256 |
| Radix.FromBase | src/index.ts:102-114 | utilFromBase returns Σ digit·2^(base·place), the single-byte shortcut included |
| Radix.MagnitudeBound | src/index.ts:102-114 | N digits below 2^base give a number below 2^(base·N) |
| Radix.MagnitudeLeadingZeros | src/index.ts:141-153 | zero digits in front, as in a reserved buffer wider than the value, do not change the number |
| Radix.MagnitudeInjective | src/index.ts:102-114 | two digit strings of one length with the same number are equal |
| Radix.WriteDigits | src/index.ts:146-153 | the digit loop writes width digits below 2^base into the last cells of a zero-filled buffer, and their number is the value |
| Radix.PutDigit | src/index.ts:149-152 | one step of the digit loop stores floor(rest / 2^(base·j)) and takes it off the rest, keeping the loop state: the rest below 2^(base·j), the unwritten cells zero, written digits plus rest equal to the value |
| Radix.ToBase | src/index.ts:122-162 | utilToBase gives an empty buffer when the value needs more than 7 digits or more than `reserved`; otherwise the value's digits at the least width that holds it (or at `reserved`, zero-filled on the left) |
| Radix.WidthIsLeast | src/index.ts:127-130 | the width utilToBase picks holds the value and no smaller width does; none is found exactly when 7 digits are too few |
| Radix.ToBaseDeterministic | src/index.ts:122-162 | at most one buffer meets utilToBase's contract for given arguments |
| Radix.FromBaseToBase | src/index.ts:102-162 | utilToBase(utilFromBase(d, base), base, \|d\|) gives back every 1..7-digit string d with digits below 2^base |
| TwosComplement.HexBlock.DecodeTC | src/index.ts:226-263 | utilDecodeTC returns the two's-complement value of valueHex and appends "Needlessly long format" to warnings exactly when the leading byte is redundant |
| TwosComplement.SignParts | src/index.ts:238-257 | the big part holds only the sign bit of the first byte, the small part the bytes with that bit cleared |
| TwosComplement.DecodeParts | src/index.ts:247-262 | smallInt − bigInt is the signed value of the bytes |
| TwosComplement.NeedlesslyLongIff | src/index.ts:229-236 | the warning fires if and only if the value fits in one byte less |
| TwosComplement.SignedValueRange | src/index.ts:226-263 | N bytes decode into the N-byte signed range, negative exactly when the sign bit is set |
| TwosComplement.SignedInjective | src/index.ts:226-263 | two byte strings of one length with the same value are equal |
| TwosComplement.EncodeTC | src/index.ts:269-310 | utilEncodeTC returns no bytes beyond ±2^55, otherwise the shortest bytes whose two's-complement value is the argument |
| TwosComplement.NegativeBranch | src/index.ts:275-284 | 2^(8i−1) − \|value\| in i bytes with the sign bit set is the shortest encoding of a negative value |
| TwosComplement.NonNegativeBranch | src/index.ts:286-303 | the i bytes of the value, behind 0x00 when their sign bit is set, are the shortest encoding of a non-negative value |
| TwosComplement.SetSignBit | src/index.ts:281 | setting the clear sign bit of a string worth m makes it stand for m − 2^(8N−1) |
| TwosComplement.WithLeadingZero | src/index.ts:289-301 | the widened buffer is 0x00 followed by the old bytes |
| TwosComplement.EncodeTCDeterministic | src/index.ts:269-310 | at most one buffer meets utilEncodeTC's contract for a value |
| TwosComplement.DecodeEncode | src/index.ts:226-310 | every 1..7-byte string that utilDecodeTC does not warn about is what utilEncodeTC returns for its decoded value |
| TwosComplement.EncodeTCCanonical | src/index.ts:226-310 | utilEncodeTC never produces a string utilDecodeTC warns about, and its first sign bit is the sign of the value |
| Base64.TemplateSymbols | src/index.ts:358-359 | both templates hold the 64 symbols of their alphabet in order, then '=' |
| Base64.IndexOfSymbol | src/index.ts:440-447 | looking up symbol k gives back k, for every k up to 64 |
| Base64.SymbolOfIndex | src/index.ts:440-447 | a character found below 64 is that symbol; one not found is none of the 64 symbols |
| Base64.IndexOf | src/index.ts:440-447 | indexOf returns the position of the character among the 64 symbols, or 64 for '=' and any other character |
| Base64.CharCodeAt | src/index.ts:389-399 | charCodeAt gives the byte at the position, and past the end NaN, which the shifts and masks read as 0 |
| Base64.Sextets | src/index.ts:399-411 | a group of 1..3 bytes gives two symbol indices below 64, then padding exactly where the second or third byte is missing |
| Base64.EncodeGroup | src/index.ts:413-425 | a group's text has four symbols, or \|chunk\| + 1 when padding is skipped |
| Base64.LeadingZeros | src/index.ts:377-384 | the position of the first non-zero byte, with only zeros before it |
| Base64.StripLeadingZeros | src/index.ts:376-387 | skipLeadingZeros keeps a suffix that starts at the first non-zero byte and drops only zeros; an all-zero input is kept whole |
| Base64.SkipLeadingZeros | src/index.ts:376-387 | the search loop and slice compute StripLeadingZeros |
| Base64.EncodeGroupAt | src/index.ts:389-411 | the indices the loop computes at position i (bytes past the end read as 0, flags setting 64) are those of the group there |
| Base64.AppendSymbols | src/index.ts:413-425 | the loop appends four template symbols, or only the ones that are not padding when padding is skipped |
| Base64.ToBase64 | src/index.ts:368-429 | toBase64 returns the group-by-group BASE64 text of the input, after leading zeros are stripped when asked |
| Base64.Test | src/index.ts:450-452 | test maps the padding index 64 to 0 and keeps every other index |
| Base64.GroupBytes | src/index.ts:465-478 | a group of four indices gives 1 to 3 bytes |
| Base64.AppendGroupBytes | src/index.ts:465-478 | the loop appends chr1, then chr2 and chr3 unless the index they end with is padding |
| Base64.DecodeGroupAt | src/index.ts:459-463 | the indices read at position i, 0 past the end, are those of the group there |
| Base64.TrimTrailingZeros | src/index.ts:480-496 | cutTailZeros keeps a prefix that ends in a non-zero byte and drops only zeros |
| Base64.TrimUnique | src/index.ts:480-496 | those properties determine the kept prefix |
| Base64.CutTailZeros | src/index.ts:480-496 | the backward search and slice compute TrimTrailingZeros, "" when every byte is zero |
| Base64.FromBase64 | src/index.ts:437-499 | fromBase64 returns the group-by-group decoding of the text, with the trailing zero bytes cut when asked |
| Base64Properties.GroupRoundTrip | src/index.ts:368-499 | one group's text decodes back to the group; unpadded, zero bytes fill it up to three |
| Base64Properties.RoundTrip | src/index.ts:368-499 | fromBase64(toBase64(s)) = s with padding |
| Base64Properties.UnpaddedRoundTrip | src/index.ts:368-499 | without padding, decoding gives s followed by one zero byte per byte missing from the last group |
| Base64Properties.CutRoundTrip | src/index.ts:480-496 | with cutTailZeros, decoding either encoding gives s without its trailing zeros |
| Base64Properties.TrimZerosAppended | src/index.ts:480-496 | zero bytes appended at the end are exactly what cutTailZeros removes |
| Base64Properties.EncodedLength | src/index.ts:413-425 | the text has 4·⌈n/3⌉ symbols padded and ⌈4n/3⌉ unpadded |
| Base64Properties.PaddingOnly | src/index.ts:413-425 | padded text is unpadded text followed by one '=' per missing byte |
| Base64Properties.Alphabet | src/index.ts:413-425 | the text uses only the 64 symbols of its alphabet, and '=' only when padding |
| Base64Properties.Missing | src/index.ts:405-411 | a last group of n = 1..3 bytes lacks 3 − n bytes, and no text lacks three or more |
| Formatting.UpperHex | src/index.ts:35 | toString(16).toUpperCase() of a byte: one digit below 16, otherwise two digits without a leading '0', worth the byte |
| Formatting.Code | src/index.ts:35-41 | each byte becomes exactly two hexadecimal digits worth the byte |
| Formatting.Joined | src/index.ts:31-49 | the hexadecimal text of n bytes has 2n characters, or 3n − 1 with spaces |
| Formatting.Trim | src/index.ts:48 | trim keeps a slice that neither starts nor ends in white space, and everything dropped before and after it is white space |
| Formatting.TrimHexCodes | src/index.ts:43-48 | trimming removes exactly the space after the last code |
| Formatting.BufferToHexCodes | src/index.ts:31-49 | bufferToHexCodes returns the codes of the window at inputOffset, separated by one space when insertSpace |
| Formatting.HexCodesRoundTrip | src/index.ts:31-49 | the hexadecimal text determines the bytes of the window |
| Formatting.DecimalString | src/index.ts:340 | toString(10) of a natural number: decimal digits, a leading '0' only for zero (what JavaScript prints for numbers below 2^53) |
| Formatting.DecimalRoundTrip | src/index.ts:340 | the decimal digits read back as the number |
| Formatting.LeadingZeroDigits | src/index.ts:346-355 | '0' characters in front do not change the number |
| Formatting.PadNumber | src/index.ts:339-356 | padNumber returns "" when the digits are longer than fullLength; otherwise exactly fullLength characters, '0's then the digits, which read back as the number (for numbers below 2^53) |

## Left out

- getUTCDate, getParametersValue, checkBufferParams, nearestPowerOf2 and
  clearProps are not part of this model: they deal with dates, option
  objects, error messages on a block, floating-point logarithms and property
  deletion, not with the byte and number conversions above.
- `src/utils.js` is not part of this model. It is an older, hand-written
  duplicate of the module, not the build input (rollup.config.js builds
  `src/index.ts`), and it behaves differently: its `utilToBase` defaults
  `reserved` to 0 and reads 0 as −1, its `padNumber` has no guard for a number longer than the
  width, and its `toBase64` and `fromBase64` have no `skipLeadingZeros` and
  `cutTailZeros` options.
- JavaScript numbers are doubles. The model uses unbounded integers, so it
  does not capture rounding of any result or intermediate above 2^53. For 7
  bytes this happens even when the value itself is a safe integer:
- TwosComplement.HexBlock.DecodeTC: for `FF 00 00 00 00 00 01` the source
  sums the masked part 127·2^48 + 1, which rounds to 127·2^48 as a double, and
  returns −2^48. The model returns the exact −2^48 + 1. From 129 bytes on the
  source returns NaN for every input: the first byte of each part sits at a
  place of weight 2^(8·128) or more, which is Infinity, so each part is
  Infinity or NaN and their difference is NaN. The model returns the exact
  signed value.
- TwosComplement.EncodeTC: for −(2^48 + 1) the source computes
  2^55 − 2^48 − 1, which rounds to 127·2^48, and returns `FF 00 00 00 00 00 00`
  (that is −2^48). The model returns the exact encoding `FE FF FF FF FF FF FF`.
- Radix.FromBase: a sum above 2^53 is exact in the model, while the source
  rounds each partial sum to the nearest double. The model also does not
  capture overflow: once base·place reaches 1024, `Math.pow(2, base·place)` is
  Infinity, so with 129 or more digits at base 8 the source returns Infinity,
  or NaN when a digit at such a place is 0 (0·Infinity); a sum past the
  largest double also becomes Infinity. The model returns the exact value.
- ArrayBuffer and Uint8Array values are `seq<byte>`, built in a local `array`
  and returned as a value. Sharing of one buffer between views is not
  modelled.
- Optional arguments are explicit parameters. Defaults such as `reserved = -1`
  or `inputLength = byteLength - inputOffset` are left to the caller.
- Buffers.Concat: one member models both `utilConcatBuf` and
  `utilConcatView`. They differ only in whether they return the buffer or its
  view, which sequences do not distinguish.
- Radix.ToBase: requires `1 <= base <= 8`. With a larger base a digit can
  exceed 255, and the source's Uint8Array store would keep it modulo 256.
  That wrap-around is not modelled.
- Radix.FromBase: digits are bytes, but the model does not require them to be
  below 2^base. The number is the weighted sum, as in the source.
- TwosComplement.EncodeTC: the argument is an integer. Fractional and
  non-finite numbers are not modelled.
- TwosComplement.HexBlock.DecodeTC: a `HexBlock` is a class holding the two
  fields the function reads and writes. The `this` binding of the source is
  the receiver.
- Base64.ToBase64: the input is a byte sequence. A JavaScript string
  character with a code of 256 or more, whose high bits the shifts would mix
  into neighbouring symbols, is not modelled.
- Base64.FromBase64: the output binary string is modelled as its byte codes.
  Every code it produces is below 256.
- Formatting.BufferToHexCodes: requires the window to lie inside the buffer.
  The source's Uint8Array constructor throws a RangeError otherwise, and the
  exception is not modelled.
- Formatting.Trim: models the white space the hexadecimal text can contain,
  plus the ASCII and Latin-1 white space, no-break space and byte order mark.
  The other Unicode white space (the space separators of category Zs) and the
  line terminators U+2028 and U+2029, which String.prototype.trim also
  removes, are not modelled.
- Formatting.PadNumber: takes a natural number. Negative and fractional
  numbers, whose toString has a sign or a point, are not modelled. Nor are
  the two ways toString(10) departs from plain digits for large numbers (see
  Formatting.DecimalString): for 10^21 the source pads "1e+21", so
  padNumber(10^21, 10) is "000001e+21" where the model gives "", and above
  2^53 the padded digits need not read back as the number.
- Formatting.DecimalString: gives every decimal digit of the number. From
  10^21 on, JavaScript's toString(10) writes exponential notation ("1e+21"),
  and above 2^53 it writes the shortest digits that identify the double
  (2^60 prints as "1152921504606847000"), so DecimalRoundTrip holds for the
  source only below 2^53.
- Strings are sequences of Dafny characters, which are Unicode scalar values,
  not UTF-16 code units. A string holding a character above U+FFFF (two code
  units in JavaScript) or a lone surrogate is not modelled: for such text
  `Buffers.StringToArrayBuffer` and `Base64.FromBase64` see one character
  where the source sees two code units. No encoding is modelled.

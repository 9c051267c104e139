# QR code decoded bit stream parser, modelled in Dafny

This project models zxing's QR code `DecodedBitStreamParser`. The parser turns the error-corrected data
codewords of a QR symbol into the text they carry. It follows the segment grammar of ISO/IEC 18004:2006,
sections 6.4.3 to 6.4.7.

The stream is a run of segments, each introduced by a 4-bit mode indicator. Any segment other than the
terminator carries a character count, and the count's width depends on the mode and the symbol version.
Four segment decoders handle the text modes:

- **numeric**: three digits per 10 bits, then a 7-bit pair or a 4-bit single digit;
- **alphanumeric**: two symbols of the 45-entry table per 11 bits, then a 6-bit single symbol;
- **byte**: raw 8-bit bytes, handed to the charset that `guessEncoding` picks;
- **Kanji**: 13-bit units, each assembled into a Shift_JIS byte pair.

Decoding stops at the terminator. An unsupported mode, a digit group out of range, a byte count beyond
the bits that remain, or a read past the end of the stream ends the decode with an error.

## How the model is organised

- **`BitStream`**: the bit string (`seq<bool>`, read most significant bit first) and `BitSource`, the
  cursor over it. `readBits` returns the value of the next n bits or fails with `NotEnoughBits`.
- **`Text`**: the result buffer (`TextBuffer`) and the alphanumeric table. The result is a sequence of
  `Fragment`s:
  - `Symbol(c)` is one character, appended by the numeric and alphanumeric decoders;
  - `Encoded(charset, bytes)` is a byte array with the charset it is to be read in, appended by the byte
    and Kanji decoders.

  Converting those bytes to characters is not modelled.
- **One module per segment decoder**: `NumericSegment`, `AlphanumericSegment`, `ByteSegment` and
  `KanjiSegment`. Each of these four modules has:
  - a specification function over `(data, pos, count)` that gives the text appended and the next cursor
    position, or the error;
  - the imperative method, proved equal to that function;
  - an encoder and lemmas about the specification (round trips, success conditions, shape, and
    independence from later bits).
- **`Encoding`**: `guessEncoding` as a scan over a byte array, proved equal to the specification
  `GuessSpec`, with lemmas that characterise when it picks Shift_JIS.
- **`Dispatcher`**: the `decode` loop (`Decode`), its specification `DecodeSpec`, and lemmas about
  whole streams.
  - The mode lookup (`Mode.forBits`), the count widths for the symbol version
    (`Mode.getCharacterCountBits`) and the platform Shift_JIS flag are fields of a `Config` value.
  - `decode` calls two collaborators whose code is not part of this model: `BitSource.java` and
    `Mode.java`. `Config` and `BitSource` model them as described above.

Two behaviours of the code that the model keeps as written:

- **The alphanumeric table is indexed unchecked.** An 11-bit pair value of 2025 or more, or a 6-bit
  single value of 45 or more, makes the Java code throw `ArrayIndexOutOfBoundsException`. The model
  reports this as the error `SymbolIndexOutOfRange` (`AlphanumericSucceedsIff`, `PairOutOfRange`). It is
  not assumed away.
- **The odd-lead-byte test in `guessEncoding` can never pass.** It asks for a trail byte that is at least
  0x9F and at most 0x7C. The test is modelled as written, and `OddBranchDead` proves it never holds. So
  the heuristic picks Shift_JIS only for an even lead byte in 0x80..0x9F followed by a byte in 0x40..0x9E
  (`GuessCharacterization`).

Index 20 of the alphanumeric table is 'K' and index 30 is 'U', as in Table 5 of ISO/IEC 18004:2006, so
the pair value 45 * 10 + 20 = 470 decodes to "AK" (`PairExample`).

## Model

| member | source | states |
|---|---|---|
| Dispatcher.Decode | src/com/google/zxing/qrcode/decoder/DecodedBitStreamParser.java:51-83 | decode of a byte array returns exactly `DecodeSpec` of its bits from position 0: the texts of the segments up to the terminator, in order, or the first error any read or segment raises |
| Dispatcher.DecodeTurn | src/com/google/zxing/qrcode/decoder/DecodedBitStreamParser.java:55-72 | one turn of the do-while loop. It ends the decode with the specified error, or it stops at the terminator with the specified full text, or it moves the cursor strictly forward. In the last case, the text so far followed by the rest's decode is still the whole specified result |
| Dispatcher.DecodeSegment | src/com/google/zxing/qrcode/decoder/DecodedBitStreamParser.java:60-70 | the mode switch: on a segment's success the cursor moves to where that segment ends and its text is appended; on its failure that error is reported; a mode with no decoder is UnsupportedMode |
| Dispatcher.DecodeStep | src/com/google/zxing/qrcode/decoder/DecodedBitStreamParser.java:57-67 | once the indicator and count are read, a failing segment fails the whole decode with its error, and a successful one contributes its text ahead of the decode of the rest of the stream |
| Dispatcher.TerminatorStops | src/com/google/zxing/qrcode/decoder/DecodedBitStreamParser.java:57-72 | a terminator indicator ends the decode with no further text, whatever bits follow |
| Dispatcher.ShortStreamFails | src/com/google/zxing/qrcode/decoder/DecodedBitStreamParser.java:57 | fewer than four bits where an indicator is due is NotEnoughBits |
| Dispatcher.ShortCountFails | src/com/google/zxing/qrcode/decoder/DecodedBitStreamParser.java:59 | a count field cut off by the end of the stream is NotEnoughBits |
| Dispatcher.UnsupportedModeFails | src/com/google/zxing/qrcode/decoder/DecodedBitStreamParser.java:57-69 | an indicator with no mode fails at once, and a known mode other than the four text modes fails after its count is read, both with UnsupportedMode |
| Dispatcher.ZeroIndicatorIsEmpty | src/com/google/zxing/qrcode/decoder/DecodedBitStreamParser.java:51-58 | when the zero indicator is the terminator, a byte array whose first byte is below 0x10 decodes to no text |
| Dispatcher.SingleSegmentStream | src/com/google/zxing/qrcode/decoder/DecodedBitStreamParser.java:55-72 | a stream of one text segment that its decoder reads as `out`, followed by a terminator, decodes to `out` |
| Dispatcher.OneSegmentStream | src/com/google/zxing/qrcode/decoder/DecodedBitStreamParser.java:55-72 | the same for a stream laid out field by field: indicator, count, payload, terminator indicator |
| Dispatcher.NumericStream | src/com/google/zxing/qrcode/decoder/DecodedBitStreamParser.java:55-72 | a numeric segment packing any digit string, then a terminator, decodes to exactly those digits |
| Dispatcher.AlphanumericStream | src/com/google/zxing/qrcode/decoder/DecodedBitStreamParser.java:55-72 | an alphanumeric segment packing any string of table symbols, then a terminator, decodes to exactly those symbols |
| Dispatcher.ByteStream | src/com/google/zxing/qrcode/decoder/DecodedBitStreamParser.java:55-72 | a byte segment of any byte string, then a terminator, decodes to those bytes tagged with the charset guessEncoding picks for them |
| Dispatcher.KanjiSegmentYields | src/com/google/zxing/qrcode/decoder/DecodedBitStreamParser.java:66-67 | the Kanji decoder that the mode switch calls reads the packing of any byte pairs Kanji mode produces back as those bytes |
| Dispatcher.KanjiStream | src/com/google/zxing/qrcode/decoder/DecodedBitStreamParser.java:55-72 | a Kanji segment packing any byte pairs Kanji mode produces, then a terminator, decodes to exactly those bytes tagged Shift_JIS |
| Dispatcher.SegmentAgrees | src/com/google/zxing/qrcode/decoder/DecodedBitStreamParser.java:60-67 | a successful segment decode depends only on the bits before the point where it stops |
| Dispatcher.DecodeThrough | src/com/google/zxing/qrcode/decoder/DecodedBitStreamParser.java:57-67 | a successful segment's text comes first in the decode from its indicator, followed by the decode from where it stops |
| Dispatcher.DecodeOkStep | src/com/google/zxing/qrcode/decoder/DecodedBitStreamParser.java:55-72 | a decode that succeeds either stops at a terminator or reads a count and a successful segment and then goes on successfully from a position strictly further on |
| Dispatcher.PrefixStep | src/com/google/zxing/qrcode/decoder/DecodedBitStreamParser.java:55-72 | one turn of the loop reads the same in a stream and in any longer stream with the same bits up to the end of the shorter one |
| Dispatcher.PrefixDecodes | src/com/google/zxing/qrcode/decoder/DecodedBitStreamParser.java:55-82 | a successful decode gives the same result on any stream that extends it |
| Dispatcher.TrailingBitsIgnored | src/com/google/zxing/qrcode/decoder/DecodedBitStreamParser.java:74-82 | bits after the terminator never change a successful decode: the check of the trailing bits is commented out |
| NumericSegment.DecodeNumericSegment | src/com/google/zxing/qrcode/decoder/DecodedBitStreamParser.java:152-179 | leaves the cursor and the result as `NumericSpec` says: that many digits appended and the bits consumed, or its error |
| NumericSegment.NumericLoopStep | src/com/google/zxing/qrcode/decoder/DecodedBitStreamParser.java:155-164 | one 10-bit group: a short read or a value of 1000 or more fails the segment; otherwise its three digits are appended and the count drops by three |
| NumericSegment.NumericTailStep | src/com/google/zxing/qrcode/decoder/DecodedBitStreamParser.java:165-178 | the end of the segment: a 7-bit pair below 100, a 4-bit digit below 10, or nothing; out-of-range values and short reads fail |
| NumericSegment.AppendTriple | src/com/google/zxing/qrcode/decoder/DecodedBitStreamParser.java:160-162 | appends the hundreds, tens and units digits of a group below 1000 |
| NumericSegment.AppendPair | src/com/google/zxing/qrcode/decoder/DecodedBitStreamParser.java:170-171 | appends the tens and units digits of a pair below 100 |
| NumericSegment.NumericRoundTrip | src/com/google/zxing/qrcode/decoder/DecodedBitStreamParser.java:155-178 | decoding the numeric packing of any digit string gives back those digits and consumes exactly the packing |
| NumericSegment.NumericDecodeEncode | src/com/google/zxing/qrcode/decoder/DecodedBitStreamParser.java:155-178 | every successful decode is of this form: its text is some digit string, and the bits it consumed are that string's packing |
| NumericSegment.NumericShape | src/com/google/zxing/qrcode/decoder/DecodedBitStreamParser.java:155-178 | on success exactly count characters, each '0' to '9', using 10 bits per full group plus 7 or 4 for the rest |
| NumericSegment.NumericSucceedsIff | src/com/google/zxing/qrcode/decoder/DecodedBitStreamParser.java:155-178 | a numeric segment succeeds if and only if all its bits are there and every group is below its limit of 1000, 100 or 10 |
| NumericSegment.NumericAgrees | src/com/google/zxing/qrcode/decoder/DecodedBitStreamParser.java:155-178 | a successful numeric decode depends only on the bits before the point where it stops |
| NumericSegment.TripleOfDigits | src/com/google/zxing/qrcode/decoder/DecodedBitStreamParser.java:160-162 | dividing a group by 100, by 10 then mod 10, and mod 10 gives back the three digits that formed it |
| AlphanumericSegment.DecodeAlphanumericSegment | src/com/google/zxing/qrcode/decoder/DecodedBitStreamParser.java:136-150 | leaves the cursor and the result as `AlphanumericSpec` says: that many table symbols appended and the bits consumed, or its error |
| AlphanumericSegment.AlphanumericLoopStep | src/com/google/zxing/qrcode/decoder/DecodedBitStreamParser.java:140-145 | one 11-bit pair: a short read fails; a value of 2025 or more overruns the table; otherwise its symbols at value / 45 and value % 45 are appended |
| AlphanumericSegment.AlphanumericTailStep | src/com/google/zxing/qrcode/decoder/DecodedBitStreamParser.java:146-149 | with one symbol left, a 6-bit index below 45 appends that table entry, and a larger index overruns the table; with none left, nothing is read |
| AlphanumericSegment.AppendPair | src/com/google/zxing/qrcode/decoder/DecodedBitStreamParser.java:142-143 | appends the two table symbols of a pair value below 2025 |
| AlphanumericSegment.AlphanumericRoundTrip | src/com/google/zxing/qrcode/decoder/DecodedBitStreamParser.java:140-149 | decoding the alphanumeric packing of any string of table indices gives back those symbols and consumes exactly the packing |
| AlphanumericSegment.AlphanumericDecodeEncode | src/com/google/zxing/qrcode/decoder/DecodedBitStreamParser.java:140-149 | every successful decode is of this form: its text is some string of table symbols, and the bits it consumed are that string's packing |
| AlphanumericSegment.AlphanumericShape | src/com/google/zxing/qrcode/decoder/DecodedBitStreamParser.java:140-149 | on success exactly count characters, each from the table, using 11 bits per pair plus 6 for an odd one |
| AlphanumericSegment.AlphanumericSucceedsIff | src/com/google/zxing/qrcode/decoder/DecodedBitStreamParser.java:140-149 | an alphanumeric segment succeeds if and only if all its bits are there and every pair is below 2025 and a final single below 45; its only errors are NotEnoughBits and SymbolIndexOutOfRange |
| AlphanumericSegment.AlphanumericAgrees | src/com/google/zxing/qrcode/decoder/DecodedBitStreamParser.java:140-149 | a successful alphanumeric decode depends only on the bits before the point where it stops |
| AlphanumericSegment.PairExample | src/com/google/zxing/qrcode/decoder/DecodedBitStreamParser.java:141-143 | the 11-bit value 470 = 45 * 10 + 20 decodes to "AK" |
| AlphanumericSegment.SingleExample | src/com/google/zxing/qrcode/decoder/DecodedBitStreamParser.java:146-149 | a single 6-bit value 0 decodes to "0" |
| AlphanumericSegment.PairOutOfRange | src/com/google/zxing/qrcode/decoder/DecodedBitStreamParser.java:141-143 | the 11-bit value 2047 overruns the table and fails the segment |
| ByteSegment.DecodeByteSegment | src/com/google/zxing/qrcode/decoder/DecodedBitStreamParser.java:113-134 | leaves the cursor and the result as `ByteSpec` says: the count bytes appended as one piece with the guessed charset and 8 * count bits consumed, or CountTooLarge with the cursor and the result untouched |
| ByteSegment.ByteShape | src/com/google/zxing/qrcode/decoder/DecodedBitStreamParser.java:116-122 | a byte segment fails if and only if fewer than 8 * count bits remain, and then with CountTooLarge; on success it appends one piece of count bytes |
| ByteSegment.ByteRoundTrip | src/com/google/zxing/qrcode/decoder/DecodedBitStreamParser.java:120-128 | decoding the bits of any byte string gives back that byte string with the charset guessEncoding picks for it |
| ByteSegment.ByteDecodeEncode | src/com/google/zxing/qrcode/decoder/DecodedBitStreamParser.java:120-122 | the bytes a successful decode appends are exactly the bits it consumed, eight at a time |
| ByteSegment.ByteAgrees | src/com/google/zxing/qrcode/decoder/DecodedBitStreamParser.java:116-128 | a successful byte decode depends only on the bits before the point where it stops |
| KanjiSegment.DecodeKanjiSegment | src/com/google/zxing/qrcode/decoder/DecodedBitStreamParser.java:85-111 | fills a buffer of 2 * count bytes with the assembled pairs and appends it tagged Shift_JIS, consuming 13 * count bits as `KanjiSpec` says, or fails with the result untouched |
| KanjiSegment.AssembleUnit | src/com/google/zxing/qrcode/decoder/DecodedBitStreamParser.java:92-101 | computes the high and low byte of a 13-bit unit, with the shift, the or, the range offset and both byte casts |
| KanjiSegment.ShiftOrIsAssembled | src/com/google/zxing/qrcode/decoder/DecodedBitStreamParser.java:92 | shifting the row v / 0xC0 left by 8 and or-ing in the column v % 0xC0 equals row * 0x100 + column, because the column is below 0x100 |
| KanjiSegment.KanjiUnitLayout | src/com/google/zxing/qrcode/decoder/DecodedBitStreamParser.java:92-101 | the low byte is the column plus 0x40; the high byte is the row plus 0x81, in 0x81..0x9F, below 0x1F00, and the row plus 0xC1, in 0xE0..0xEB, above it |
| KanjiSegment.KanjiUnitEncodes | src/com/google/zxing/qrcode/decoder/DecodedBitStreamParser.java:91-101 | every 13-bit unit becomes one of the byte pairs Kanji mode produces (high byte 0x81..0x9F or 0xE0..0xEB, low byte at least 0x40, at most 0xEBBF), and encoding that pair gives the unit back |
| KanjiSegment.KanjiPairDecodes | src/com/google/zxing/qrcode/decoder/DecodedBitStreamParser.java:91-101 | every byte pair of that form encodes to a 13-bit unit that assembles back to that pair |
| KanjiSegment.KanjiExamples | src/com/google/zxing/qrcode/decoder/DecodedBitStreamParser.java:93-98 | unit 0 becomes 0x81 0x40, unit 0x173F becomes 0x9F 0xFF, and unit 0x1740, the first across the boundary, becomes 0xE0 0x40 |
| KanjiSegment.KanjiRoundTrip | src/com/google/zxing/qrcode/decoder/DecodedBitStreamParser.java:88-107 | decoding the Kanji packing of any string of byte pairs Kanji mode produces gives back those bytes, tagged Shift_JIS |
| KanjiSegment.KanjiDecodeEncode | src/com/google/zxing/qrcode/decoder/DecodedBitStreamParser.java:88-104 | the bytes a decode stores are pairs in range, and packing them again gives exactly the bits consumed |
| KanjiSegment.KanjiBytesAreText | src/com/google/zxing/qrcode/decoder/DecodedBitStreamParser.java:88-104 | the stored buffer always consists of byte pairs of the form Kanji mode produces |
| KanjiSegment.KanjiShape | src/com/google/zxing/qrcode/decoder/DecodedBitStreamParser.java:88-107 | a Kanji segment fails if and only if fewer than 13 * count bits remain, and then with NotEnoughBits; on success bytes 2k and 2k + 1 of the one Shift_JIS piece are unit k's two bytes |
| KanjiSegment.KanjiAgrees | src/com/google/zxing/qrcode/decoder/DecodedBitStreamParser.java:88-104 | a successful Kanji decode depends only on the bits before the point where it stops |
| Encoding.GuessEncoding | src/com/google/zxing/qrcode/decoder/DecodedBitStreamParser.java:181-211 | the left-to-right scan returns `GuessSpec`: Shift_JIS when the platform flag is set or some index passes the lead and trail test, ISO-8859-1 otherwise |
| Encoding.GuessCharacterization | src/com/google/zxing/qrcode/decoder/DecodedBitStreamParser.java:190-210 | without the flag, Shift_JIS is picked if and only if some even byte in 0x80..0x9F is followed by a byte in 0x40..0x9E |
| Encoding.OddBranchDead | src/com/google/zxing/qrcode/decoder/DecodedBitStreamParser.java:203-207 | the test for an odd lead byte never passes: no trail byte is both at least 0x9F and at most 0x7C |
| Encoding.LeadAndTrailIsEvenPair | src/com/google/zxing/qrcode/decoder/DecodedBitStreamParser.java:193-207 | the test at one index holds if and only if that byte is an even lead byte in 0x80..0x9F, not the last, followed by a byte in 0x40..0x9E |
| Encoding.AssumedShiftJis | src/com/google/zxing/qrcode/decoder/DecodedBitStreamParser.java:182-184 | with the platform flag set, Shift_JIS is picked whatever the bytes |
| Encoding.EvenLeadExample | src/com/google/zxing/qrcode/decoder/DecodedBitStreamParser.java:198-202 | the bytes 0x82 0x60 select Shift_JIS |
| Encoding.OddLeadExample | src/com/google/zxing/qrcode/decoder/DecodedBitStreamParser.java:203-207 | the bytes 0x81 0x40, a valid Shift_JIS pair, still select ISO-8859-1 |
| Encoding.AsciiIsLatin | src/com/google/zxing/qrcode/decoder/DecodedBitStreamParser.java:190-210 | bytes all below 0x80 select ISO-8859-1 |
| Text.AlphanumericCharIsTableEntry | src/com/google/zxing/qrcode/decoder/DecodedBitStreamParser.java:33-38 | entry i of the 45-symbol table is digit i for i < 10, then the letters A to Z, then space $ % * + - . / : |
| Text.TextBuffer.Append | src/com/google/zxing/qrcode/decoder/DecodedBitStreamParser.java:130 | `result.append` adds one piece at the end of the result and changes nothing else |
| Text.TextBuffer.AppendTableEntry | src/com/google/zxing/qrcode/decoder/DecodedBitStreamParser.java:148 | appends table entry i at the end of the result |
| BitStream.BitSource.constructor | src/com/google/zxing/qrcode/decoder/DecodedBitStreamParser.java:52 | the cursor starts at bit 0 of the array's bits, each byte most significant bit first |
| BitStream.BitSource.ReadBits | src/com/google/zxing/qrcode/decoder/DecodedBitStreamParser.java:57 | `readBits(n)` returns the value of the next n bits and moves the cursor past them, or fails with NotEnoughBits and leaves the cursor where it was |

## Left out

- **Conversion of the bytes to characters** (`new String(bytes, charset)`, lines 107 and 130) is not
  modelled because it happens in the Java runtime. Neither is the `UnsupportedEncodingException` path
  (lines 108-110 and 131-133). Byte and Kanji segments append the raw bytes with the charset name.
- **The platform default encoding** (lines 40-46, `System.getProperty`) is the `assumeShiftJis` field
  of `Config`. The model does not compute it.
- **`Mode.forBits` and `Mode.getCharacterCountBits(version)`** belong to `Mode.java`, which is not part of
  this model. They are the `forBits` and `countBits` functions of `Config`.
  - An indicator with no mode (where `forBits` throws) is `NoMode`.
  - A known mode that decode does not handle is `Other`.
  - Count widths are limited to the standard's 16 bits, so `count << 3` (line 117) cannot overflow a
    Java int and is modelled as `8 * count`.
- **`BitSource`** belongs to `BitSource.java`, which is not part of this model. It is modelled as a
  cursor over the bit string that fails with `NotEnoughBits` on a read past the end. Reads of more than
  32 bits are excluded by `ReadBits`'s precondition; decode never asks for more than 16.
- **Exception messages** are not modelled; each error is one of five kinds of `Error`.
- **Java's signed `byte`** is viewed as its unsigned value 0..255. The source masks it with `& 0xFF`
  (lines 192 and 197) and the `(byte)` casts keep the low 8 bits (lines 100-101, 121).
- **The commented-out trailing-bit check** (lines 74-81) is not modelled as an operation.
  `TrailingBitsIgnored` states the resulting behaviour: bits after the terminator are ignored.
- **The loop body and the mode switch of `decode`** are split into `DecodeTurn` and `DecodeSegment`. They
  read the same fields in the same order as the single loop.
- DecodeNumericSegment: on failure it states only the error, not the cursor or the digits already
  appended. The source throws there, and decode discards the whole result.
- DecodeAlphanumericSegment: on failure it states only the error, for the same reason.
- DecodeKanjiSegment: on failure it states the error and an unchanged result, but not the cursor, for the
  same reason.
- Dispatcher.DecodeSegment: on failure it states only the error, for the same reason.
- Dispatcher.DecodeTurn: on failure it states only the error, for the same reason.

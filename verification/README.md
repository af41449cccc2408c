# QR Code encoder core, modelled in Dafny

This project models the encoder of the JAVAQRcode library (package
`com.vanstone.encoder`), which is adapted from ZXing's QR Code encoder.
It covers the following parts:

- `Encoder.encode`: argument checks, hint defaults and drawing of the
  symbol into a bitmap (`renderResult`).
- `QREncoder.encode`:
  - mode selection;
  - ECI and mode headers;
  - the numeric, alphanumeric, byte and Kanji segment encoders;
  - the two-pass version choice;
  - the character-count field;
  - terminator and pad codewords;
  - Reed-Solomon block sizes and interleaving;
  - mask-pattern selection.
- `Mode`: indicators and character-count widths.
- `BitMatrix`: packed 32-bit words, with
  `get`/`set`/`unset`/`flip`/`xor`/`clear`, `setRegion`,
  `getRow`/`setRow`/`rotate180`, the bounding-box scans, `parse`,
  `toString` and `equals`.
- `ByteMatrix`: `get`, the three `set`s, `clear` and `toString`.

The Java objects are mutable. Here a matrix or bit stream is a value, and
every mutator returns the updated value. Java's exceptions are `Err`
values of a `Result` type (module `Results`): `WriterException` is split
by cause, and `IllegalArgumentException`, `IllegalStateException` and
the array-index and division errors each have their own constructor.

The code the core calls into is supplied as function-typed parameters
bundled in `QrEncoding.Collaborators`, so every property holds for any
implementation of them:

- `String.getBytes`;
- the ECI table;
- the `Version` tables;
- the Reed-Solomon encoder;
- the mask penalty of a built matrix.

The main results:

- **Round trips.** Numeric, alphanumeric, Kanji and byte segments decode
  back to their content. `parse` reads back what `toString(set, unset)`
  writes. `forBits` inverts `getBits`.
- **Exact characterisations.**
  - The chosen version is the least one that holds the stream with its
    own count width, and the two passes fail only when none does.
  - `terminateBits` produces exactly the padded stream defined
    independently in `Codewords.PaddedStream`.
  - The blocks cover all codewords, and interleaving succeeds exactly
    when the data and total codeword counts agree modulo the block
    count. Every codeword's interleaved position is given.
- **Involutions and idempotence.** `xor` with the same mask twice and
  `rotate180` twice give back the matrix. `setRegion` twice is the same
  as once.
- **Rendering.** An output pixel is dark exactly when it lies in the
  square of a dark module, and for a non-negative margin on a grid with
  at least one module drawing never fails.

`/` and `%` on possibly negative operands use `Arith.JDiv` and
`Arith.JRem` (Java's truncating division). Integers are unbounded (see
"Left out").

## Model

| member | source | states |
|---|---|---|
| Modes.ForBits | JAVAQRcode/src/com/vanstone/encoder/Mode.java:40-66 | an accepted value is the indicator of the mode returned; any other value is an IllegalArgumentException |
| Modes.ForBitsAcceptsExactlyIndicators | JAVAQRcode/src/com/vanstone/encoder/Mode.java:40-66 | `forBits` succeeds exactly on the ten values 0x0-0x5, 0x7, 0x8, 0x9 and 0xD |
| Modes.ForBitsOfBits | JAVAQRcode/src/com/vanstone/encoder/Mode.java:13-23 | every mode's indicator decodes back to that mode: `forBits` inverts `getBits` |
| Modes.BitsInjectiveAndNarrow | JAVAQRcode/src/com/vanstone/encoder/Mode.java:13-23 | the ten indicators are distinct and fit the 4-bit field |
| Modes.CharacterCountBitsMonotone | JAVAQRcode/src/com/vanstone/encoder/Mode.java:73-84 | for every mode the count field never narrows as the version grows |
| Modes.CharacterCountBitsTable | JAVAQRcode/src/com/vanstone/encoder/Mode.java:13-23 | the count widths of the four data modes for versions 1-9, 10-26 and 27-40 are those of Table 3 of ISO/IEC 18004:2006 |
| Charsets.AlphanumericCode | JAVAQRcode/src/com/vanstone/encoder/QREncoder.java:142-147 | the code is -1 or a position in the 45-character charset |
| Charsets.AlphanumericCodeMatchesTable | JAVAQRcode/src/com/vanstone/encoder/QREncoder.java:12-19 | the code is the entry of `ALPHANUMERIC_TABLE` for characters below 0x60 and -1 past the table |
| Charsets.AlphanumericCodeExact | JAVAQRcode/src/com/vanstone/encoder/QREncoder.java:12-19 | the code is the character's position in the charset of Table 5 of JIS X 0510:2004, and -1 exactly for characters outside it |
| Charsets.CodeInjective | JAVAQRcode/src/com/vanstone/encoder/QREncoder.java:12-19 | no two characters share a code |
| Charsets.AlphanumericCharOfCode | JAVAQRcode/src/com/vanstone/encoder/QREncoder.java:12-19 | the decoder's character of a value is the charset entry, and inverts the code |
| Charsets.DigitCode | JAVAQRcode/src/com/vanstone/encoder/QREncoder.java:16 | a digit's alphanumeric code is its numeric value |
| Charsets.DigitsAreAlphanumeric | JAVAQRcode/src/com/vanstone/encoder/QREncoder.java:165-168 | all-digit content is alphanumeric content |
| Segments.ModeOfRest | JAVAQRcode/src/com/vanstone/encoder/QREncoder.java:161-179 | a character outside the charset decides BYTE; otherwise the flags and the unread characters decide between ALPHANUMERIC, NUMERIC and BYTE |
| Segments.ChooseMode | JAVAQRcode/src/com/vanstone/encoder/QREncoder.java:156-180 | with Shift_JIS the mode is KANJI iff the bytes are double-byte Kanji, else BYTE; otherwise NUMERIC iff non-empty all-digit content, ALPHANUMERIC iff alphanumeric content with a non-digit, BYTE iff empty content or a character outside the charset |
| KanjiMode.IsOnlyDoubleByteKanji | JAVAQRcode/src/com/vanstone/encoder/QREncoder.java:182-200 | true iff the Shift_JIS form exists, has even length and every even-position byte is a Kanji lead byte |
| KanjiMode.LeadsFrom | JAVAQRcode/src/com/vanstone/encoder/QREncoder.java:193-198 | the loop from position `i` accepts iff every even position from `i` on holds a lead byte |
| KanjiMode.KanjiChoiceMayFail | JAVAQRcode/src/com/vanstone/encoder/QREncoder.java:182-200 | lead bytes alone are checked, so KANJI is chosen for bytes 0x81 0x00 that `appendKanjiBytes` then rejects |
| Segments.AppendModeInfo | JAVAQRcode/src/com/vanstone/encoder/QREncoder.java:414-416 | four bits that `forBits` reads back as the mode |
| Segments.AppendEci | JAVAQRcode/src/com/vanstone/encoder/QREncoder.java:543-546 | twelve bits: the ECI indicator, then the designator value modulo 256 |
| Segments.AppendLengthInfo | JAVAQRcode/src/com/vanstone/encoder/QREncoder.java:422-428 | fails iff the count does not fit the mode's width at the version; otherwise a field of exactly that width holding the count |
| Segments.Append8BitBytes | JAVAQRcode/src/com/vanstone/encoder/QREncoder.java:504-515 | fails iff the charset is unsupported; otherwise 8 bits per byte, which read back as the bytes |
| Segments.AppendKanjiBytes | JAVAQRcode/src/com/vanstone/encoder/QREncoder.java:517-523 | an unsupported Shift_JIS is a failure; otherwise the Kanji encoding of the Shift_JIS bytes |
| Segments.AppendBytes | JAVAQRcode/src/com/vanstone/encoder/QREncoder.java:434-454 | dispatches the four data modes to their encoders; any other mode is "Invalid mode" |
| BitStreams.ValueOfAppendBits | JAVAQRcode/src/com/vanstone/encoder/QREncoder.java:427 | an `n`-bit field reads back as the value modulo 2^n, for negative values too |
| BitStreams.AppendBitsOfValue | JAVAQRcode/src/com/vanstone/encoder/QREncoder.java:427 | re-appending a stream's value at the stream's width reproduces the stream |
| BitStreams.BytesRoundTrip | JAVAQRcode/src/com/vanstone/encoder/QREncoder.java:512-514 | reading back appended bytes with `toBytes` gives the bytes |
| BitStreams.BitsRoundTrip | JAVAQRcode/src/com/vanstone/encoder/QREncoder.java:356 | a byte-aligned stream is the concatenation of the bytes `toBytes` reads from it |
| NumericMode.AppendNumeric | JAVAQRcode/src/com/vanstone/encoder/QREncoder.java:456-478 | the stream is 10 bits per group of three digits plus 4 or 7 for the rest |
| NumericMode.NumericLengthClosedForm | JAVAQRcode/src/com/vanstone/encoder/QREncoder.java:456-478 | the length is `10 * (n / 3)` plus 0, 4 or 7 by `n % 3` |
| NumericMode.NumericGroup | JAVAQRcode/src/com/vanstone/encoder/QREncoder.java:461-466 | three leading digits become one 10-bit field holding their value, in front of the rest's bits |
| NumericMode.NumericRoundTrip | JAVAQRcode/src/com/vanstone/encoder/QREncoder.java:456-478 | all-digit content decodes back from its numeric-mode bits |
| NumericMode.NumericExample | JAVAQRcode/src/com/vanstone/encoder/QREncoder.java:461-470 | "12345" is 123 in 10 bits followed by 45 in 7 bits |
| AlphanumericMode.AppendAlphanumeric | JAVAQRcode/src/com/vanstone/encoder/QREncoder.java:480-502 | succeeds iff every character is in the charset; then 11 bits per pair and 6 for a last character |
| AlphanumericMode.AlphanumericLengthClosedForm | JAVAQRcode/src/com/vanstone/encoder/QREncoder.java:480-502 | the length is `11 * (n / 2) + 6 * (n % 2)` |
| AlphanumericMode.CodePair | JAVAQRcode/src/com/vanstone/encoder/QREncoder.java:494 | `45 * code1 + code2` fits 11 bits and splits back into the two codes |
| AlphanumericMode.AlphanumericPair | JAVAQRcode/src/com/vanstone/encoder/QREncoder.java:488-495 | a leading pair is one 11-bit field holding `45 * code1 + code2`, in front of the rest's bits |
| AlphanumericMode.AlphanumericRoundTrip | JAVAQRcode/src/com/vanstone/encoder/QREncoder.java:480-502 | alphanumeric content decodes back from its bits |
| KanjiMode.KanjiValue | JAVAQRcode/src/com/vanstone/encoder/QREncoder.java:528-538 | the value of a code in either Kanji range fits 13 bits |
| KanjiMode.AppendKanjiFrom | JAVAQRcode/src/com/vanstone/encoder/QREncoder.java:524-540 | a successful loop emits 13 bits per remaining pair |
| KanjiMode.AppendKanjiFromSpec | JAVAQRcode/src/com/vanstone/encoder/QREncoder.java:524-540 | the loop succeeds iff the length is even and every pair is in a Kanji range; with an even length a failure is "Invalid byte sequence", with an odd one it may be the index error |
| KanjiMode.AppendKanji | JAVAQRcode/src/com/vanstone/encoder/QREncoder.java:517-541 | succeeds iff even length and every pair in range; then 13 bits per pair |
| KanjiMode.KanjiCodeOfValue | JAVAQRcode/src/com/vanstone/encoder/QREncoder.java:528-538 | decoding as section 8.4.5 of JIS X 0510:2004 gives back every in-range pair with a trail byte of 0x40 or more |
| KanjiMode.KanjiValueCollision | JAVAQRcode/src/com/vanstone/encoder/QREncoder.java:530-538 | the range check alone admits 0x8200 and 0x8240, which both encode as 0xC0 |
| KanjiMode.KanjiRoundTrip | JAVAQRcode/src/com/vanstone/encoder/QREncoder.java:517-541 | proper Shift_JIS Kanji bytes encode and decode back to themselves |
| Codewords.ChooseVersionFromSpec | JAVAQRcode/src/com/vanstone/encoder/QREncoder.java:223-237 | the loop stops at the first version that fits and fails with "Data too big" exactly when none does |
| Codewords.ChooseVersion | JAVAQRcode/src/com/vanstone/encoder/QREncoder.java:221-238 | the least version of 1..40 whose data codewords hold the bits; failure iff no version does |
| Codewords.ChooseVersionFinds | JAVAQRcode/src/com/vanstone/encoder/QREncoder.java:221-238 | any version that holds the bits bounds the chosen one from above |
| Codewords.ChooseVersionMonotone | JAVAQRcode/src/com/vanstone/encoder/QREncoder.java:221-238 | more bits never choose a smaller version |
| Codewords.TerminatorLength | JAVAQRcode/src/com/vanstone/encoder/QREncoder.java:249-251 | at most four zeros, stopping early only at the capacity |
| Codewords.AlignmentLength | JAVAQRcode/src/com/vanstone/encoder/QREncoder.java:254-259 | fewer than 8 zeros, reaching a byte boundary |
| Codewords.TerminateBits | JAVAQRcode/src/com/vanstone/encoder/QREncoder.java:243-268 | fails iff the stream exceeds the capacity; otherwise exactly the capacity, with the input as prefix |
| Codewords.TerminatedLength | JAVAQRcode/src/com/vanstone/encoder/QREncoder.java:249-267 | the aligned stream stays within the capacity, the pad count is never negative, and the stream ends exactly at the capacity |
| Codewords.TerminateParts | JAVAQRcode/src/com/vanstone/encoder/QREncoder.java:249-264 | the result is the input, terminator zeros, alignment zeros and pad codewords, whose lengths add up to the capacity |
| Codewords.TerminateBitsPadded | JAVAQRcode/src/com/vanstone/encoder/QREncoder.java:243-268 | whenever the input fits, the result is the independently defined padded stream, so the final size check never fails |
| Codewords.PaddedStreamLayout | JAVAQRcode/src/com/vanstone/encoder/QREncoder.java:260-264 | the padded stream is the input, zeros up to a byte boundary, then 0xEC and 0x11 alternating |
| Codewords.ChooseMaskFrom | JAVAQRcode/src/com/vanstone/encoder/QREncoder.java:207-218 | the loop keeps the best pattern unless a later one has a strictly lower penalty, and then returns the first pattern of least penalty |
| Codewords.ChooseMaskPattern | JAVAQRcode/src/com/vanstone/encoder/QREncoder.java:202-219 | -1 iff no penalty is below `Integer.MAX_VALUE`; otherwise the first pattern of least penalty |
| Codewords.MaskChosen | JAVAQRcode/src/com/vanstone/encoder/QREncoder.java:207-218 | penalties all below `Integer.MAX_VALUE` always choose a pattern of 0..7 |
| Blocks.BlockSizes | JAVAQRcode/src/com/vanstone/encoder/QREncoder.java:275-325 | fails iff the block id is too large or there are no blocks, so the three sanity checks never fail; a block of group 1 gets `numDataBytes / numRSBlocks` data codewords and one of group 2 one more, and every block gets the same number of EC codewords |
| Blocks.BlockSums | JAVAQRcode/src/com/vanstone/encoder/QREncoder.java:347-363 | the first `m` blocks hold `m` times the group-1 size plus one per group-2 block among them |
| Blocks.BlocksCover | JAVAQRcode/src/com/vanstone/encoder/QREncoder.java:364-366 | the blocks always hold every codeword, and the offset check passes iff data and total counts agree modulo the block count |
| ColumnOrder.MaxLength | JAVAQRcode/src/com/vanstone/encoder/QREncoder.java:360-361 | the running maximum is an upper bound reached by some block |
| ColumnOrder.ColumnsAt | JAVAQRcode/src/com/vanstone/encoder/QREncoder.java:371-378 | among full columns, codeword `j` of block `b` is at `j * n + b` |
| ColumnOrder.ColumnsTwoGroupsLength | JAVAQRcode/src/com/vanstone/encoder/QREncoder.java:371-378 | reading two-group blocks column by column yields every codeword once |
| ColumnOrder.ColumnsTwoGroupsAt | JAVAQRcode/src/com/vanstone/encoder/QREncoder.java:371-378 | the interleaved position of every codeword of two-group blocks, extra codewords after all full columns |
| Interleaving.ReadBytesInside | JAVAQRcode/src/com/vanstone/encoder/QREncoder.java:356 | within the stream the data bytes of a block are those `toBytes` reads |
| Interleaving.MakeBlocks | JAVAQRcode/src/com/vanstone/encoder/QREncoder.java:347-363 | every block is read at the running offset with generated EC codewords, and the loop cannot fail with table-shaped arguments |
| Interleaving.BlocksShape | JAVAQRcode/src/com/vanstone/encoder/QREncoder.java:347-363 | with table arguments the data blocks form two groups of sizes `d / n` and `d / n + 1`, and the EC blocks are all the same size |
| Interleaving.InterleaveWithEcBytes | JAVAQRcode/src/com/vanstone/encoder/QREncoder.java:330-394 | a stream of the wrong byte size is rejected; a negative block count is then an IllegalArgumentException, as `new ArrayList<>(numRSBlocks)` throws; success yields `numTotalBytes` codewords |
| Interleaving.InterleaveAccepts | JAVAQRcode/src/com/vanstone/encoder/QREncoder.java:330-394 | with table arguments interleaving succeeds iff data and total counts agree modulo the block count, and yields the blocks read column by column, data first |
| Interleaving.InterleavedLength | JAVAQRcode/src/com/vanstone/encoder/QREncoder.java:388-391 | two-group blocks interleave into exactly `numTotalBytes` codewords, so the final check never fails |
| Interleaving.InterleavedDataAt | JAVAQRcode/src/com/vanstone/encoder/QREncoder.java:371-378 | data codeword `j` of block `b` lands at `j * n + b`, the longer blocks' extra codewords after all those |
| Interleaving.InterleavedEcAt | JAVAQRcode/src/com/vanstone/encoder/QREncoder.java:380-387 | EC codeword `j` of block `b` lands at `numDataBytes + j * n + b` |
| QrEncoding.HeaderBits | JAVAQRcode/src/com/vanstone/encoder/QREncoder.java:67-78 | the ECI segment only for byte mode with a non-default charset that has a designator, then the mode indicator |
| QrEncoding.TwoPassVersion | JAVAQRcode/src/com/vanstone/encoder/QREncoder.java:88-97 | each pass picks the least version for its bit count; the final version is at least the provisional one, and equal when the count widths agree |
| QrEncoding.TwoPassLeast | JAVAQRcode/src/com/vanstone/encoder/QREncoder.java:88-97 | no version below the final one holds the stream with its own count width |
| QrEncoding.TwoPassFinds | JAVAQRcode/src/com/vanstone/encoder/QREncoder.java:88-97 | whenever some version holds the stream with its own count width, both passes succeed and the final version is at most that one |
| QrEncoding.NoneHolds | JAVAQRcode/src/com/vanstone/encoder/QREncoder.java:88-97 | when the passes fail, no version holds the stream |
| QrEncoding.Assembled | JAVAQRcode/src/com/vanstone/encoder/QREncoder.java:99-105 | the stream begins with the header, the count field and the data, in that order |
| QrEncoding.LayOut | JAVAQRcode/src/com/vanstone/encoder/QREncoder.java:88-111 | the stream fills the chosen version's capacity, starts with header, count and data, and the version is the least that holds them; "Data too big" iff no version holds them, a count too wide for the final field is the length error, and the capacity error arises only when the second pass widened the count field |
| QrEncoding.Place | JAVAQRcode/src/com/vanstone/encoder/QREncoder.java:99-111 | at a given version the stream fails iff the count does not fit its field (the length error) or header, count field and data exceed the version's data bits (the capacity error); otherwise it fills the capacity and starts with header, count and data |
| QrEncoding.WidenedOnOverflow | JAVAQRcode/src/com/vanstone/encoder/QREncoder.java:94-111 | a final version that held the stream with the provisional count width overflows only when its own count field is wider |
| QrEncoding.EncodeData | JAVAQRcode/src/com/vanstone/encoder/QREncoder.java:57-111 | the mode is `chooseMode`'s, the version lies in 1..40 and the stream fills its capacity; failures are among the named causes |
| QrEncoding.EncodeDataLayout | JAVAQRcode/src/com/vanstone/encoder/QREncoder.java:57-111 | the stream is header, count of letters, encoded content, and no smaller version holds them |
| QrEncoding.Finish | JAVAQRcode/src/com/vanstone/encoder/QREncoder.java:113-129 | the code keeps level, mode and version; the final stream is the total codeword count; the mask is the first of least penalty, or -1 when every penalty reaches `Integer.MAX_VALUE` |
| QrEncoding.Encode | JAVAQRcode/src/com/vanstone/encoder/QREncoder.java:53-136 | a data failure propagates; success keeps level, mode and version, has the total codeword count and a least-penalty mask, which is -1 when every penalty reaches `Integer.MAX_VALUE` |
| QrEncoding.EncodeInterleaves | JAVAQRcode/src/com/vanstone/encoder/QREncoder.java:107-117 | after the data stream, encoding succeeds iff interleaving does, and the final bits are the interleaved codewords |
| BitMatrices.New | JAVAQRcode/src/com/vanstone/encoder/BitMatrix.java:28-37 | succeeds iff both sides are at least 1, giving a valid all-light matrix of that size |
| BitMatrices.RawGet | JAVAQRcode/src/com/vanstone/encoder/BitMatrix.java:118-121 | an unchecked read fails iff the word index lies outside the array |
| BitMatrices.RawGetInWords | JAVAQRcode/src/com/vanstone/encoder/BitMatrix.java:118-121 | inside the words the unchecked read is the cell |
| BitMatrices.RawGetSpills | JAVAQRcode/src/com/vanstone/encoder/BitMatrix.java:118-121 | a column past the row's words reads a cell of a later row: in any valid 10 x 2 matrix `get(40, 0)` answers cell (8, 1) |
| BitMatrices.Set | JAVAQRcode/src/com/vanstone/encoder/BitMatrix.java:133-136 | on a cell of the matrix: that cell becomes dark, no other changes, the matrix stays valid |
| BitMatrices.Unset | JAVAQRcode/src/com/vanstone/encoder/BitMatrix.java:138-141 | on a cell of the matrix: that cell becomes light, no other changes |
| BitMatrices.Flip | JAVAQRcode/src/com/vanstone/encoder/BitMatrix.java:153-156 | on a cell of the matrix: that cell is inverted, no other changes |
| BitMatrices.RawWrite | JAVAQRcode/src/com/vanstone/encoder/BitMatrix.java:133-156 | an unchecked write fails iff the word index lies outside the array; otherwise only that word changes |
| BitMatrices.RawWriteInBounds | JAVAQRcode/src/com/vanstone/encoder/BitMatrix.java:133-156 | on a cell of the matrix the unchecked `set`, `unset` and `flip` are the checked ones |
| BitMatrices.RawWriteSpills | JAVAQRcode/src/com/vanstone/encoder/BitMatrix.java:133-136 | in a 10 x 2 matrix `set(40, 0)` is accepted and darkens cell (8, 1) |
| BitMatrices.RawWritePadding | JAVAQRcode/src/com/vanstone/encoder/BitMatrix.java:133-136 | in a 10 x 2 matrix `set(20, 0)` is accepted and sets a padding bit, breaking the invariant |
| BitMatrices.Clear | JAVAQRcode/src/com/vanstone/encoder/BitMatrix.java:183-188 | every cell becomes light and the size is kept |
| BitMatrices.Equals | JAVAQRcode/src/com/vanstone/encoder/BitMatrix.java:398-405 | for valid matrices, equal iff same size and same cells |
| BitMatrices.SameCellsSameMatrix | JAVAQRcode/src/com/vanstone/encoder/BitMatrix.java:398-405 | valid matrices with the same size and cells have the same words |
| BitMatrixOps.Xor | JAVAQRcode/src/com/vanstone/encoder/BitMatrix.java:164-178 | succeeds iff the sizes agree; then every cell is xor-ed with the mask's |
| BitMatrixOps.XorTwice | JAVAQRcode/src/com/vanstone/encoder/BitMatrix.java:164-178 | xor-ing twice with the same mask gives back the matrix |
| BitMatrixOps.SetRegion | JAVAQRcode/src/com/vanstone/encoder/BitMatrix.java:204-225 | succeeds iff the corner is non-negative, the sides positive and the rectangle inside; then exactly the rectangle is added |
| BitMatrixOps.SetRegionIdempotent | JAVAQRcode/src/com/vanstone/encoder/BitMatrix.java:204-225 | setting the same region again changes nothing |
| BitMatrixOps.Row | JAVAQRcode/src/com/vanstone/encoder/BitMatrix.java:233-244 | `width` bits holding the row's cells |
| BitMatrixOps.SetRow | JAVAQRcode/src/com/vanstone/encoder/BitMatrix.java:253-255 | the row becomes the given bits and the other rows are kept |
| BitMatrixOps.SwapReversedRows | JAVAQRcode/src/com/vanstone/encoder/BitMatrix.java:266-271 | rows `i` and `height - 1 - i` are exchanged and reversed, the others kept |
| BitMatrixOps.TurnedAll | JAVAQRcode/src/com/vanstone/encoder/BitMatrix.java:265-272 | after `(height + 1) / 2` steps every row is turned |
| BitMatrixOps.Rotate180 | JAVAQRcode/src/com/vanstone/encoder/BitMatrix.java:260-273 | cell `(x, y)` of the result is cell `(width-1-x, height-1-y)` of the input |
| BitMatrixOps.RotateTwice | JAVAQRcode/src/com/vanstone/encoder/BitMatrix.java:260-273 | turning twice gives back the matrix |
| BitMatrixScans.LowestBit | JAVAQRcode/src/com/vanstone/encoder/BitMatrix.java:298-301 | the scan finds the lowest set bit of a non-zero word |
| BitMatrixScans.HighestBit | JAVAQRcode/src/com/vanstone/encoder/BitMatrix.java:307-310 | the scan finds the highest set bit of a non-zero word |
| BitMatrixScans.LeftInWord | JAVAQRcode/src/com/vanstone/encoder/BitMatrix.java:297-305 | the left bound only moves to a dark cell and lies left of every dark cell of the word |
| BitMatrixScans.RightInWord | JAVAQRcode/src/com/vanstone/encoder/BitMatrix.java:306-314 | the right bound only moves to a dark cell and lies right of every dark cell of the word |
| BitMatrixScans.ScanWord | JAVAQRcode/src/com/vanstone/encoder/BitMatrix.java:290-315 | after a non-zero word every bound is reached by a dark cell and encloses all dark cells scanned |
| BitMatrixScans.Extent | JAVAQRcode/src/com/vanstone/encoder/BitMatrix.java:282-317 | the bounds stay initial iff there is no dark cell; otherwise they are the extreme dark columns and rows |
| BitMatrixScans.EnclosingRectangle | JAVAQRcode/src/com/vanstone/encoder/BitMatrix.java:281-327 | `null` iff no dark cell; otherwise left and top of the dark cells with width `right - left` and height `bottom - top`, as written |
| BitMatrixScans.EnclosingRectangleOfOneCell | JAVAQRcode/src/com/vanstone/encoder/BitMatrix.java:319-326 | a single dark cell gets a 0 x 0 rectangle |
| BitMatrixScans.EnclosingRectangleCorrected | JAVAQRcode/src/com/vanstone/encoder/BitMatrix.java:281-327 | `null` iff no dark cell; otherwise a rectangle holding every dark cell with a dark cell on each edge |
| BitMatrixScans.EnclosingRectangleCorrectedOfOneCell | JAVAQRcode/src/com/vanstone/encoder/BitMatrix.java:319-326 | with the inclusive count a single dark cell gets a 1 x 1 rectangle |
| BitMatrixScans.TopLeftOnBit | JAVAQRcode/src/com/vanstone/encoder/BitMatrix.java:334-352 | `null` iff no dark cell; otherwise the first dark cell in row-major order |
| BitMatrixScans.BottomRightOnBit | JAVAQRcode/src/com/vanstone/encoder/BitMatrix.java:354-374 | `null` iff no dark cell; otherwise the last dark cell in row-major order |
| BitMatrixText.EndRow | JAVAQRcode/src/com/vanstone/encoder/BitMatrix.java:61-70 | a line break ends a non-empty row; a row of another length than the first is an IllegalArgumentException |
| BitMatrixText.Scan | JAVAQRcode/src/com/vanstone/encoder/BitMatrix.java:58-87 | the loop keeps every ended row at the common length; it fails only with an IllegalArgumentException or an index error, and text that starts with neither a line break nor either token is an IllegalArgumentException |
| BitMatrixText.FillCells | JAVAQRcode/src/com/vanstone/encoder/BitMatrix.java:99-103 | filling an empty matrix darkens exactly the cells whose row-major bit is true |
| BitMatrixText.Parse | JAVAQRcode/src/com/vanstone/encoder/BitMatrix.java:46-105 | a successful parse gives a valid matrix; a failure is an IllegalArgumentException or an index error, and text that starts with neither a line break nor either token is an IllegalArgumentException |
| BitMatrixText.ParseToString | JAVAQRcode/src/com/vanstone/encoder/BitMatrix.java:46-105 | parsing what `toString(setString, unsetString)` writes, with distinguishable tokens, gives back the matrix |
| BitMatrixText.ParseErrors | JAVAQRcode/src/com/vanstone/encoder/BitMatrix.java:46-105 | no tokens, unequal rows and an unknown token are IllegalArgumentExceptions; a token cut short is an index error |
| BitMatrixText.ScanLines | JAVAQRcode/src/com/vanstone/encoder/BitMatrix.java:58-96 | reading the lines of `toString` reads every cell, one row per line |
| ByteMatrices.New | JAVAQRcode/src/com/vanstone/encoder/ByteMatrix.java:14-18 | succeeds iff both sizes are non-negative, with every cell 0; otherwise NegativeArraySize |
| ByteMatrices.TryGet | JAVAQRcode/src/com/vanstone/encoder/ByteMatrix.java:28-30 | an access fails with the index error iff the cell is outside the grid |
| ByteMatrices.TrySet | JAVAQRcode/src/com/vanstone/encoder/ByteMatrix.java:39-41 | a write fails with the index error iff the cell is outside the grid, and keeps the size |
| ByteMatrices.SetByte | JAVAQRcode/src/com/vanstone/encoder/ByteMatrix.java:39-41 | the cell takes the value and no other cell changes |
| ByteMatrices.SetInt | JAVAQRcode/src/com/vanstone/encoder/ByteMatrix.java:43-45 | the cell takes the value narrowed to a byte (congruent modulo 256, equal when in range), no other changes |
| ByteMatrices.SetBool | JAVAQRcode/src/com/vanstone/encoder/ByteMatrix.java:47-49 | the cell becomes 1 or 0, no other changes |
| ByteMatrices.ToJByte | JAVAQRcode/src/com/vanstone/encoder/ByteMatrix.java:44 | the narrowing cast keeps the value modulo 256 |
| ByteMatrices.Clear | JAVAQRcode/src/com/vanstone/encoder/ByteMatrix.java:51-57 | every cell takes the value and the size is kept |
| ByteMatrices.ToStringLayout | JAVAQRcode/src/com/vanstone/encoder/ByteMatrix.java:60-79 | cell `(x, y)` is shown at characters `2x, 2x+1` of line `y`, every line ends in a newline, and the text has `height * (2 * width + 1)` characters |
| ByteMatrices.CellTextCases | JAVAQRcode/src/com/vanstone/encoder/ByteMatrix.java:64-74 | " 0" iff 0, " 1" iff 1, two blanks iff anything else |
| Rendering.EcLevelOf | JAVAQRcode/src/com/vanstone/encoder/Encoder.java:26-33 | the hinted level when present, else L |
| Rendering.QuietZoneOf | JAVAQRcode/src/com/vanstone/encoder/Encoder.java:27-37 | the hinted margin when present, else 4 |
| Rendering.Scale | JAVAQRcode/src/com/vanstone/encoder/Encoder.java:61-74 | fails (division by zero) iff a padded side is 0; the output is the larger of request and padded symbol on each side |
| Rendering.ScaleFits | JAVAQRcode/src/com/vanstone/encoder/Encoder.java:61-74 | for a non-negative margin the scale is at least 1 and maximal, and the grid lies inside the output, centred to within one pixel |
| Rendering.ScaleExample | JAVAQRcode/src/com/vanstone/encoder/Encoder.java:61-74 | 21 x 21 with margin 4 in 200 x 200: 6 pixels per module, 37 pixels of padding |
| Rendering.Draw | JAVAQRcode/src/com/vanstone/encoder/Encoder.java:76-85 | succeeds iff every dark module's square fits; then exactly the covered pixels are dark |
| Rendering.CoveredSquares | JAVAQRcode/src/com/vanstone/encoder/Encoder.java:76-85 | a pixel counts as covered iff it lies in the square of some dark module |
| Rendering.GridFits | JAVAQRcode/src/com/vanstone/encoder/Encoder.java:73-82 | a grid that fits the output at its scale fits square by square |
| Rendering.RenderResult | JAVAQRcode/src/com/vanstone/encoder/Encoder.java:55-88 | no matrix is an IllegalStateException; a zero padded side divides by zero; success renders exactly the dark squares; a non-negative margin on a non-empty grid never fails |
| Rendering.Encode | JAVAQRcode/src/com/vanstone/encoder/Encoder.java:8-42 | empty content, another format or a negative size are IllegalArgumentExceptions; encoding and matrix failures propagate; success renders a symbol with the hinted level and a mask pattern of 0..7 |

## Left out

- ByteMatrices.Get: requires an in-grid cell. `ByteMatrices.TryGet` models the ArrayIndexOutOfBoundsException that `get` throws for any other cell.
- ByteMatrices.SetByte: requires an in-grid cell. `ByteMatrices.TrySet` models the exception thrown elsewhere.
- ByteMatrices.SetInt: requires an in-grid cell, for the same reason as `SetByte`.
- ByteMatrices.SetBool: requires an in-grid cell, for the same reason as `SetByte`.
- BitMatrices.Get: requires a cell within the words. `BitMatrices.RawGet` models the unchecked `get`.
- BitMatrices.Set: requires a valid matrix and an in-bounds cell. `BitMatrices.RawWrite` models the unchecked write:
  - a word index outside the array is an index error;
  - otherwise the write lands wherever `y * rowSize + x / 32` points, a padding bit or a cell of a later row (`RawWriteSpills`, `RawWritePadding`).
- BitMatrices.Unset: requires an in-bounds cell, as `Set` does; `RawWrite` covers the rest.
- BitMatrices.Flip: requires an in-bounds cell, as `Set` does; `RawWrite` covers the rest.
- BitMatrices.Equals: assumes the padding invariant `Valid`, which unchecked writes can break. With a padding bit set, `equals` compares words, not cells.
- BitMatrixScans.EnclosingRectangle: assumes `Valid`. After a padding bit is set, Java counts it as a dark column at or past `width`. The same holds for `TopLeftOnBit`, `BottomRightOnBit` and `EnclosingRectangleCorrected`.
- BitMatrixOps.Row: requires a row in range. Java's `getRow` with another `y` reads a different row's words or throws an index error.
- BitMatrixOps.SetRow: requires a row in range and exactly `width` bits.
  - Java copies `rowSize` whole words from the `BitArray`, padding bits included.
  - A shorter array is an index error.
- Rendering.Scale: Java's 32-bit overflow is not modelled. `quietZone * 2` (Encoder.java:63-64) and `inputWidth * multiple` (Encoder.java:73) wrap for a huge margin or output. The model computes with unbounded integers.
- BitMatrices.New: Java's 32-bit overflow is not modelled.
  - `(width + 31) / 32` and `rowSize * height` (BitMatrix.java:35-36) overflow for sizes near `Integer.MAX_VALUE`.
  - Java then throws NegativeArraySizeException or allocates a wrapped size, where the model returns `Ok`.
- BitMatrixOps.SetRegion: `left + width` and `top + height` are unbounded here, while Java computes them in 32 bits.
- Matrices are immutable values here, so two Java behaviours are lost:
  - the aliasing that `ByteMatrix.getArray()` exposes (ByteMatrix.java:35-37);
  - the reuse of one `ByteMatrix` across the eight trial `buildMatrix` calls of `chooseMaskPattern` and the final one (QREncoder.java:127-132, 206-216). The penalty of each pattern is a parameter.
- BitMatrixText.Parse: counts Dafny characters, while Java's `length()`, `charAt` and `substring` count UTF-16 code units. Text outside the Basic Multilingual Plane can differ.
- Segments.ChooseMode: the same character-count caveat applies to the content of every segment encoder.
- `String.getBytes` is a parameter (`Segments.GetBytes`), and so are the following:
  - the ECI lookup `CharacterSetECI.getCharacterSetECIByName`;
  - the `Version` tables.
- The Reed-Solomon encoder `generateECBytes` (QREncoder.java:396-409) is a parameter (`Interleaving.EcGenerator`). It belongs to another part of the library.
- `MatrixUtil.buildMatrix` is a parameter:
  - `QrEncoding.Encode` keeps `finalBits` in the `QRCode` record instead of a matrix;
  - `Rendering.Encode` takes `buildMatrix` as a function that fails outside the mask patterns 0..7.
- `calculateMaskPenalty` and `MaskUtil` (QREncoder.java:28-33) are a parameter, the penalty of each pattern.
- `BitArray` itself is not part of this model. Bit streams are `seq<bool>`, `appendBits(v, n)` keeps the low `n` bits of `v`, and `toBytes` reads bytes back.
- `hashCode`, `clone`, `getWidth`/`getHeight`/`getRowSize` and the getters of `ByteMatrix` are not modelled. They only return fields of the record.
- The one-argument `BitMatrix(dimension)` constructor is `BitMatrices.New(d, d)`.
- `QREncoder.encode(content, ecLevel)` is `QrEncoding.Encode` with no hint.
- `chooseMode(content)` with a `null` encoding is `Segments.ChooseMode` with any encoding other than Shift_JIS.
- A `null` string, hint map or row argument is not modelled. Only the `null` matrix of `renderResult` is, as `RenderResult`'s `None` input.

## Findings

| source | as written | input that shows it | evidently intended | confidence | as-written member | corrected member |
|---|---|---|---|---|---|---|
| JAVAQRcode/src/com/vanstone/encoder/BitMatrix.java:319-326 | `getEnclosingRectangle` returns `width = right - left` and `height = bottom - top`, counting from the last dark column and row | a matrix with the single dark cell (x0, y0) gives `{x0, y0, 0, 0}`, a rectangle that holds no cell | `width = right - left + 1` and `height = bottom - top + 1`, so the rectangle holds every dark cell as the method's documentation promises | not executed | BitMatrixScans.EnclosingRectangle, BitMatrixScans.EnclosingRectangleOfOneCell | BitMatrixScans.EnclosingRectangleCorrected, BitMatrixScans.EnclosingRectangleCorrectedOfOneCell |

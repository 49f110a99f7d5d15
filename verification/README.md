# QR-Code encoder core in Dafny

This project models the encoding core of the QR-Code JavaScript library. Two parts are covered:

- Class `DataQR` (`src/creator/DataQr.js`). It turns a text into a QR symbol. The steps are:
  - choose the version parameters;
  - encode the text as numeric, alphanumeric or octet (UTF-8) data;
  - pack the mode indicator, the count and the data into codewords, then add the terminator and padding;
  - split the codewords into blocks and compute the Reed–Solomon error-correction codewords over GF(256);
  - interleave the blocks;
  - draw the finder, timing and alignment patterns, the format information and the version information;
  - place the codewords along the zig-zag path under a mask;
  - when the mask is automatic, score all eight masks with the penalty rules of ISO/IEC 18004, section 7.8.3, and keep the best.
- Function `controlOptionsCreator` (`src/creator/controlOptionsCreator.js`). It validates the options and chooses the mode, error-correction level and version:
  - the mode is detected from the text;
  - when the version is automatic, it is the least version that fits;
  - when the level is automatic, the levels are tried in the order H, Q, M, L.

The model follows each file's own form:

- `DataQR` is a Dafny class whose fields are updated by its methods (module `DataQr`).
- The loops of the JavaScript are Dafny methods with loop invariants. Each is proved equal to a specification function, and the properties are proved about those functions as lemmas.
- The modules are:
  - `BitStream`: bit strings and bytes;
  - `Iso`: constants of ISO/IEC 18004 and BCH encoding;
  - `Capacity`: version parameters and data capacity;
  - `TextEncoder`: the text as data;
  - `Codewords`: bit packing, terminator and padding;
  - `ReedSolomon`;
  - `Interleave`;
  - `FormatInfo`: format and version codewords;
  - `Matrix`: module placement and masking;
  - `Penalty`: mask evaluation;
  - `DataQr`;
  - `ControlOptions`.

Large tables come from `src/lib/iso`, which is not part of this model. These are GF(256) exponent and log tables, generator polynomials and the per-version block table. They enter as a `Tables` parameter. The predicate `ValidTables` states the facts the code relies on: the tables are inverse permutations, and the entries lie in range. Small constants are restated from ISO/IEC 18004. These are the mode and level codes, the count-field widths (Table 3), the alphanumeric table (Table 5), the mask conditions (Table 10) and the BCH generators (Annexes C and D).

## Model

| member | source | states |
|---|---|---|
| `BitStream.ValueBits` | src/creator/DataQr.js:355-368 | The `n` bits that `pack(x, n)` appends denote `x mod 2^n`. |
| `BitStream.BitsValue` | src/creator/DataQr.js:355-368 | A bit string is the `Bits` of its own value: packing is injective on `n`-bit values. |
| `BitStream.BytesRoundTrip` | src/creator/DataQr.js:604 | Reading the codewords back bit by bit, most significant bit first, and regrouping by eight gives the codewords again. |
| `BitStream.BytesToBitsIndex` | src/creator/DataQr.js:604 | Bit `k` of the codeword stream is bit `k mod 8`, most significant first, of codeword `k / 8`. That is the bit the placement loop reads. |
| `BitStream.BitsMod` | src/creator/DataQr.js:357 | Masking `x` to its low `n` bits first does not change the `n` bits packed. |
| `BitStream.BitsToBytesRoundTrip` | src/creator/DataQr.js:363 | A byte-aligned bit stream, grouped into codewords and read back, is unchanged. |
| `BitStream.BytesToBitsAppend` | src/creator/DataQr.js:363 | Appending a codeword appends its eight bits to the stream. |
| `Iso.BitsFieldDataQuantity` | src/creator/DataQr.js:276 | The width of the character-count field is between 8 and 16 bits for every version and mode. |
| `Iso.AlphanumericCode` | src/creator/DataQr.js:388-390 | An alphanumeric character's code is below 45 and is the position of that character in the 45-character table. |
| `Iso.DigitCode` | src/creator/DataQr.js:388-390 | A digit is alphanumeric, and its alphanumeric code is its numeric value. |
| `Iso.AlphanumericSet` | src/creator/controlOptionsCreator.js:26-30 | The alphanumeric table holds exactly the digits, the capital letters and the nine symbols of the mode's character set. |
| `Iso.FormatBchSystematic` | src/creator/DataQr.js:503 | BCH(15,5) encoding keeps the 5 data bits in the top bits, and the codeword is below 2^15. |
| `Iso.VersionBchSystematic` | src/creator/DataQr.js:490 | BCH(18,6) encoding keeps the 6 version bits in the top bits, and the codeword is below 2^18. |
| `Iso.EncodeBch` | src/creator/DataQr.js:488-504 | Computes the systematic BCH codeword for both calls: the value shifted above the check bits, OR the remainder of its division by the generator. `Iso.FormatBchSystematic` and `Iso.VersionBchSystematic` state what it gives for the two codes used. |
| `Iso.MaskCondition` | src/creator/DataQr.js:605 | Gives the eight data-mask conditions of Table 10 that `maskFunc` applies. Mask 0 is the checkerboard: the condition holds exactly where row and column have the same parity. |
| `Capacity.ClearLow3` | src/creator/DataQr.js:307 | Clearing the low three bits gives the largest multiple of 8 not above the value. |
| `Capacity.CountDataBits` | src/creator/DataQr.js:280-299 | Computes the modules left for codewords: `16v² + 128v + 64`, less `25q² − 10q − 55` for `q` alignment coordinates, less 36 above version 6. `Capacity.DataModules` states what this count means. |
| `Capacity.DataModules` | src/creator/DataQr.js:280-299 | The count is the `(4v + 17)²` modules of the symbol less each function pattern: three finders with separators (64 each), two format copies and the dark module (31), the two timing patterns, the alignment patterns not under a finder less their overlap with the timing patterns, and two 18-module version blocks from version 7. |
| `Capacity.NeedsVerInfo` | src/creator/DataQr.js:267 | For versions 1..40, version information is needed exactly for symbols of 45 modules a side or more. |
| `Capacity.MaxLength` | src/creator/controlOptionsCreator.js:51-60 | The character capacity is not negative when the free bit count is not, and not positive when it is negative. `Capacity.MaxLengthExact` states its exact meaning. |
| `Capacity.BitsDataMax` | src/creator/controlOptionsCreator.js:45-61 | Computes `MaxLength` of the bits left after the 4-bit mode indicator and the count field. `Capacity.BitsDataMaxExact` states what this capacity means. |
| `Capacity.DeriveVersionParams` | src/creator/DataQr.js:272-309 | There is at least one block, and one generator coefficient per ECC codeword, each an exponent below 255. The count width matches the mode and version. Version `v > 1` has `v/7 + 2` alignment coordinates. `bitsData` is a multiple of 8, and data bits plus ECC bits fall short of the capacity formula's module count by fewer than 8 remainder bits. |
| `Capacity.MaxLengthNegative` | src/creator/controlOptionsCreator.js:51-60 | When the header alone exceeds the data bits, the capacity is not positive. |
| `Capacity.MaxLengthTight` | src/creator/controlOptionsCreator.js:53-60 | The capacity formula gives a length that fits in the free bits, and one more character would not fit. |
| `Capacity.MaxLengthExact` | src/creator/controlOptionsCreator.js:53-60 | A length is at most the capacity if and only if its encoded data fits in the free bits. |
| `Capacity.BitsDataMaxExact` | src/creator/controlOptionsCreator.js:45-61 | A length is at most `bitsDataMax()` if and only if mode indicator, count field and data together fit in `bitsData`. |
| `TextEncoder.AddOctets` | src/creator/DataQr.js:334-336 | A code point above 127 needs between one and three continuation octets. |
| `TextEncoder.Continuation` | src/creator/DataQr.js:340-342 | Every continuation octet lies in 0x80..0xBF. |
| `TextEncoder.LeadOctet` | src/creator/DataQr.js:338 | A multi-octet sequence starts with an octet in 0xC0..0xF7. |
| `TextEncoder.EncodeCodePoint` | src/creator/DataQr.js:326-343 | A code point becomes one to four octets. |
| `TextEncoder.LeadOctetDecodes` | src/creator/DataQr.js:336-338 | The lead octet tells how many continuation octets follow, and carries the high bits of the code point. |
| `TextEncoder.ContinuationValueOf` | src/creator/DataQr.js:340-342 | The continuation octets carry the low six bits per octet of the code point. |
| `TextEncoder.DecodeCodePoint` | src/creator/DataQr.js:326-343 | Decoding the octets of one code point, followed by anything, yields that code point first. |
| `TextEncoder.Utf8RoundTrip` | src/creator/DataQr.js:323-344 | Decoding the octet encoding of an encodable text gives the text back. |
| `TextEncoder.Utf8Cons` | src/creator/DataQr.js:324-344 | The text is encoded code point by code point. The whole encoding fails as soon as one code point exceeds 2097151. |
| `TextEncoder.Utf8NoneExtends` | src/creator/DataQr.js:330-333 | Once one code point is out of range, the result is empty whatever follows. |
| `TextEncoder.Utf8` | src/creator/DataQr.js:323-344 | The encoding exists exactly when every code point is at most 2097151. It then has between one and four octets per code point. |
| `TextEncoder.Utf8Ascii` | src/creator/DataQr.js:328 | A text of code points below 128 encodes to itself. |
| `TextEncoder.TextToOctets` | src/creator/DataQr.js:323-344 | The loop produces the UTF-8 octets, or nothing when a code point is out of range. |
| `TextEncoder.AppendMultiOctet` | src/creator/DataQr.js:334-343 | The inner loop appends exactly the octets of one code point. |
| `TextEncoder.TextToData` | src/creator/DataQr.js:315-345 | Numeric and alphanumeric text becomes its character codes. Octet text becomes its UTF-8 octets. |
| `Codewords.ModeBitsLength` | src/creator/DataQr.js:377-398 | Numeric, alphanumeric and octet data take the bit lengths that the capacity formula counts. |
| `Codewords.DataStreamLength` | src/creator/DataQr.js:370-398 | The stream before the terminator is mode indicator, count field and data, and nothing else. |
| `Codewords.AlignToByte` | src/creator/DataQr.js:405 | Flushing the partial codeword leaves a whole number of bytes. |
| `Codewords.AlignToByteZeros` | src/creator/DataQr.js:405 | The flush keeps the stream, appends fewer than 8 bits, and all of them are zero. |
| `Codewords.TerminatorAsWritten` | src/creator/DataQr.js:401 | The terminator condition as written holds exactly when the corrected one does, or when the stream is byte-aligned and already fills `maxQty` codewords or more. |
| `Codewords.SignificantBits` | src/creator/DataQr.js:400-405 | With the corrected terminator, the stream is kept, followed only by zeros, within capacity. Either a full terminator was added or capacity was reached. |
| `Codewords.PaddedBits` | src/creator/DataQr.js:404-409 | Padding after the flush keeps the flushed bytes and fills up with 0xEC/0x11 alternately. |
| `Codewords.PadCodewordsShape` | src/creator/DataQr.js:407-409 | Padding yields exactly `bitsData/8` codewords: the given ones, then 0xEC and 0x11 alternately. |
| `Codewords.PadCodewordsKeeps` | src/creator/DataQr.js:407-409 | Codewords that already fill the capacity are left unchanged. |
| `Codewords.FinishShape` | src/creator/DataQr.js:400-409 | The corrected ending gives exactly `bitsData/8` codewords. They hold the stream, then the zero terminator (or as much as fits), then padding. |
| `Codewords.FinishAsWritten` | src/creator/DataQr.js:400-409 | Computes the data codewords with the terminator as written: terminate, flush to a byte boundary, pad. `Codewords.FinishAsWrittenAgrees` and `Codewords.FinishAsWrittenOverflows` compare it with the corrected ending. |
| `Codewords.DataCodewords` | src/creator/DataQr.js:400-409 | Computes the data codewords of a version: the stream of mode, count and data, ended by the corrected terminator and padded to `bitsData/8` codewords. `Codewords.FinishShape` states their layout. |
| `Codewords.FinishAsWrittenAgrees` | src/creator/DataQr.js:400-402 | Whenever the stream does not exactly fill the capacity, the ending as written equals the corrected one. |
| `Codewords.FinishAsWrittenOverflows` | src/creator/DataQr.js:400-402 | When the stream exactly fills the capacity, the ending as written gives one codeword too many. |
| `Codewords.ExactFillCapacity` | src/creator/controlOptionsCreator.js:51-55 | At version 1 with 104 data bits, numeric capacity is 27 digits. |
| `Codewords.ExactFillExample` | src/creator/DataQr.js:400-409 | 27 digits pass the capacity check at version 1-Q. As written they give 14 codewords for 13 slots; corrected, they give 13. |
| `Codewords.ShiftedBits` | src/creator/DataQr.js:359 | Shifting a value left by `b` places appends `b` zero bits to its bits. |
| `Codewords.PackBelow` | src/creator/DataQr.js:358-360 | Packing a value that fits in the current codeword appends its bits and keeps the packing invariant. |
| `Codewords.PackComplete` | src/creator/DataQr.js:361-366 | Packing a value that overflows completes the codeword with its high bits and keeps the invariant. |
| `Codewords.FillRest` | src/creator/DataQr.js:361-366 | Adding the high bits of the value to a codeword whose low `r` bits are free gives a byte: the bits already pending, then those high bits. |
| `Codewords.PackStep` | src/creator/DataQr.js:356-367 | One loop pass keeps the packing invariant. The bits still to pack shrink, and together with the bits done they are unchanged. |
| `Codewords.Pack` | src/creator/DataQr.js:355-368 | `pack(x, n)` appends exactly the `n` low bits of `x` to the stream represented by the codewords and the partial codeword. |
| `Codewords.PackNumeric` | src/creator/DataQr.js:378-385 | Digits are packed three per 10 bits, with a tail of 4 or 7 bits. |
| `Codewords.NumericTail` | src/creator/DataQr.js:382-384 | The one or two digits left over take 4 or 7 bits. |
| `Codewords.PackAlphanumeric` | src/creator/DataQr.js:387-393 | Characters are packed two per 11 bits (45·a + b), with a tail of 6 bits. |
| `Codewords.AlphanumericTail` | src/creator/DataQr.js:392 | An odd last character takes 6 bits. |
| `Codewords.PackOctets` | src/creator/DataQr.js:395-397 | Octets are packed 8 bits each. |
| `Codewords.PackFlush` | src/creator/DataQr.js:404-405 | Pushing the partial codeword, if any, leaves the byte-aligned stream as codewords. |
| `Codewords.PackLength` | src/creator/DataQr.js:401 | The number of complete codewords is the stream length over 8. `remaining == 8` holds exactly when the stream is byte-aligned. |
| `Codewords.AppendPadding` | src/creator/DataQr.js:407-409 | The padding loop produces the padded codewords. |
| `Codewords.DataToCodewords` | src/creator/DataQr.js:348-410 | The data codewords are the stream of mode, count and data, ended by the corrected terminator, flushed and padded. |
| `ReedSolomon.MulAlpha` | src/creator/DataQr.js:441-444 | Multiplying zero gives zero. Otherwise the product is taken through the exponent and log tables. |
| `ReedSolomon.Remainder` | src/creator/DataQr.js:438-449 | Polynomial division leaves as many ECC codewords as the generator has coefficients. |
| `ReedSolomon.RemainderStep` | src/creator/DataQr.js:440-447 | One division step removes the leading codeword and subtracts the scaled generator from the rest. |
| `ReedSolomon.SubtractAt` | src/creator/DataQr.js:443-445 | The inner loop changes only the codewords after the leading one, and subtracts the scaled generator from them. |
| `ReedSolomon.SubtractZero` | src/creator/DataQr.js:441-442 | A zero leading coefficient subtracts nothing. |
| `ReedSolomon.CalculateEcc` | src/creator/DataQr.js:438-449 | The ECC codewords are the remainder of the data block by the generator polynomial, one per coefficient. |
| `ReedSolomon.Ecc` | src/creator/DataQr.js:438-449 | A block has one ECC codeword per generator coefficient. |
| `ReedSolomon.RemainderOfZero` | src/creator/DataQr.js:438-448 | Dividing all-zero data gives an all-zero remainder. |
| `ReedSolomon.EccOfZero` | src/creator/DataQr.js:438-448 | An all-zero data block has all-zero ECC codewords. |
| `Interleave.MakeMapBlocks` | src/creator/DataQr.js:426-435 | Blocks start at 0 and end at the data length. The first blocks have `len / qtyBlocks` codewords, the rest one more, and at least one block is short. |
| `Interleave.MapEnd` | src/creator/DataQr.js:430-433 | The last block ends exactly at the end of the data. |
| `Interleave.MapOrdered` | src/creator/DataQr.js:426-435 | Block boundaries are non-decreasing and span the data from 0 to its length. |
| `Interleave.DataBlocks` | src/creator/DataQr.js:452-458 | Each block is the slice of the data between its boundaries. |
| `Interleave.BlockEntry` | src/creator/DataQr.js:466 | Entry `i` of block `j` is the data codeword at the block's start plus `i`. |
| `Interleave.FlattenDataBlocks` | src/creator/DataQr.js:452-458 | Concatenating the blocks gives the data back. |
| `Interleave.EccBlocks` | src/creator/DataQr.js:452-458 | There is one ECC block per data block, each as long as the generator. |
| `Interleave.BlocksEcc` | src/creator/DataQr.js:452-458 | The loop computes the ECC codewords of each block in turn. |
| `Interleave.PushDataColumns` | src/creator/DataQr.js:464-468 | The loop appends the first `q` codewords of every block, column by column. |
| `Interleave.PushExtras` | src/creator/DataQr.js:470-472 | The loop appends the extra last codeword of each long block. |
| `Interleave.PushColumns` | src/creator/DataQr.js:475-479 | The loop appends the ECC blocks column by column. |
| `Interleave.ColumnsPermutation` | src/creator/DataQr.js:464-468 | The columns hold the same codewords as the block prefixes, in another order. |
| `Interleave.PrefixesStep` | src/creator/DataQr.js:464-468 | One more column adds one codeword of each block. |
| `Interleave.ExtrasComplete` | src/creator/DataQr.js:469-472 | The columns plus the extras hold every codeword of every block. |
| `Interleave.DataPermutation` | src/creator/DataQr.js:463-472 | The interleaved data part is a permutation of the data codewords. |
| `Interleave.DataLength` | src/creator/DataQr.js:463-472 | The interleaved data part is as long as the data. |
| `Interleave.MakeCodewordsQR` | src/creator/DataQr.js:415-480 | The final sequence is the interleaved data then the interleaved ECC. Its length is data plus blocks × ECC per block, and its data part is a permutation of the data codewords. |
| `FormatInfo.MakeCodewordVersion` | src/creator/DataQr.js:488-492 | The version codeword fits in 18 bits. |
| `FormatInfo.VersionCodeword` | src/creator/DataQr.js:488-492 | The version codeword is zero exactly for versions up to 6. Otherwise its high six bits are the version. |
| `FormatInfo.FormatData` | src/creator/DataQr.js:503 | The 5 format data bits are the level code above the 3 mask bits. |
| `FormatInfo.MakeCodewordFormat` | src/creator/DataQr.js:502-504 | The format codeword fits in 15 bits. |
| `FormatInfo.EncodeFormat` | src/creator/DataQr.js:503 | The masked BCH codeword fits in 15 bits. |
| `FormatInfo.VersionListed` | src/creator/DataQr.js:488-492 | For every version from 7 to 40, the computed version codeword is the one listed in Annex D of ISO/IEC 18004. |
| `FormatInfo.FormatListed` | src/creator/DataQr.js:502-504 | For every level and mask, the computed format codeword is the one listed in Annex C of ISO/IEC 18004. |
| `FormatInfo.FormatCodeword` | src/creator/DataQr.js:502-504 | Unmasking the format codeword and dropping its BCH bits gives back level and mask. |
| `FormatInfo.FormatInjective` | src/creator/DataQr.js:502-504 | Different level and mask pairs have different format codewords. |
| `FormatInfo.DataInjective` | src/creator/DataQr.js:503 | Different level and mask pairs have different format data bits. |
| `Matrix.SetTwice` | src/creator/DataQr.js:541 | Setting two modules keeps the square shape. Exactly those two take the new value, and the rest are unchanged. |
| `Matrix.EmptyGrid` | src/creator/DataQr.js:547-550 | The initial matrix is `n × n` and every module is unset. |
| `Matrix.PlaceBlock` | src/creator/DataQr.js:527-533 | The loop writes each bit row of a pattern at its offset. |
| `Matrix.BlockCells` | src/creator/DataQr.js:527-533 | Placing a pattern sets exactly the modules inside its rectangle to the pattern's bits, and leaves every other module unchanged. |
| `Matrix.PlaceTiming` | src/creator/DataQr.js:558-561 | The loop draws the alternating timing modules on row 6 and column 6 between the finders. |
| `Matrix.Slots` | src/creator/DataQr.js:538-539 | Format-bit positions along row 8 and column 8 are distinct, and each maps back to its bit index. |
| `Matrix.Slot` | src/creator/DataQr.js:538-539 | Each format bit has one row position and one column position, both inside the symbol. |
| `Matrix.FormatStep` | src/creator/DataQr.js:540-542 | One loop pass writes format bit `i` at its two positions. |
| `Matrix.FormatAdvance` | src/creator/DataQr.js:540-542 | Writing bit `i` twice extends the partial placement by one bit. |
| `Matrix.PlaceFormatInfo` | src/creator/DataQr.js:536-543 | The loop places the 15 format bits. |
| `Matrix.FormatInfoPlaced` | src/creator/DataQr.js:536-543 | After placement both copies of the format codeword are in place, and every module off the format positions is unchanged. |
| `Matrix.VersionStep` | src/creator/DataQr.js:577-581 | One loop pass writes one version bit at its two transposed positions. |
| `Matrix.PlaceVersionInfo` | src/creator/DataQr.js:575-583 | Version information is drawn only for versions above 6. |
| `Matrix.VersionInfoPlaced` | src/creator/DataQr.js:575-583 | After placement both 6×3 copies of the version codeword are in place, and every other module is unchanged. |
| `Matrix.PlaceAlignments` | src/creator/DataQr.js:563-570 | The loops draw an alignment pattern at each coordinate pair, skipping the three finder corners. |
| `Matrix.AlignedGrows` | src/creator/DataQr.js:563-570 | Drawing alignment patterns keeps the square shape and empties no module already set. |
| `Matrix.FindersShape` | src/creator/DataQr.js:552-555 | The three finders with separators make an `n × n` matrix with column 6 set near the corners. |
| `Matrix.BaseShape` | src/creator/DataQr.js:552-570 | After finders, timing and alignments, column 6 is set in every row. |
| `Matrix.FormatOutsideVersion` | src/creator/DataQr.js:572-583 | Format positions and version positions never overlap. |
| `Matrix.PatternsShape` | src/creator/DataQr.js:552-583 | Before the data is placed, the fixed patterns form an `n × n` matrix. Column 6 is set, both format copies are in place, and so are both version copies when the version needs them. |
| `Matrix.ColumnSixKept` | src/creator/DataQr.js:559-583 | Later patterns do not unset the timing column. |
| `Matrix.FormatBesideVersion` | src/creator/DataQr.js:572-583 | Drawing the version information leaves the format information in place. |
| `Matrix.Placed` | src/creator/DataQr.js:592-612 | The zig-zag placement keeps the matrix shape. |
| `Matrix.PlaceRow` | src/creator/DataQr.js:594-610 | One vertical step of the loop advances the zig-zag placement by one row pair. The data map is filled only when the mask is automatic. |
| `Matrix.PlaceCodewords` | src/creator/DataQr.js:592-612 | The placement loop yields the zig-zag placement. In automatic-mask mode it also records which module took which data bit. |
| `Matrix.Fill` | src/creator/DataQr.js:592-612 | The placement keeps the matrix and the data map `n × n`. `Matrix.FillFrame`, `Matrix.FillRecords` and `Matrix.FillCovers` state what it places. |
| `Matrix.VisitedNextPair` | src/creator/DataQr.js:592-593 | Moving to the next column pair (skipping the timing column) continues the visit order. |
| `Matrix.VisitedNextRow` | src/creator/DataQr.js:594-596 | Moving to the next row of a column pair continues the visit order. |
| `Matrix.VisitedNextCell` | src/creator/DataQr.js:596 | Moving to the left module of the pair continues the visit order. |
| `Matrix.VisitedAll` | src/creator/DataQr.js:592-596 | The zig-zag path visits every module outside the timing column. |
| `Matrix.FillFrame` | src/creator/DataQr.js:597-608 | Placement never changes a module that was already set. |
| `Matrix.FillRecords` | src/creator/DataQr.js:597-608 | Every visited module that was unset gets a recorded data bit, and its value is that bit under the mask. |
| `Matrix.FillCovers` | src/creator/DataQr.js:592-612 | Every visited module is set once placement ends. |
| `Matrix.FillMapSame` | src/creator/DataQr.js:597-606 | Which data bit lands in which module depends only on the free modules, not on the mask or the pattern values. |
| `Matrix.DataBitStream` | src/creator/DataQr.js:598-604 | The placed bit at step `k` is bit `k` of the codewords. Past the end it is 0. |
| `Matrix.PlacedCell` | src/creator/DataQr.js:597-608 | After placement a pattern module is unchanged and has no data bit. A free module holds its data bit under the mask. |
| `Matrix.PlacedComplete` | src/creator/DataQr.js:585-612 | Placement keeps every pattern module and leaves no module unset. |
| `Matrix.FormatKept` | src/creator/DataQr.js:597 | Placement keeps the format information in place. |
| `Matrix.VersionKept` | src/creator/DataQr.js:597 | Placement keeps the version information in place. |
| `Matrix.ReMask` | src/creator/DataQr.js:618-631 | The loop rewrites the format bits and recomputes each data module under the new mask. |
| `Matrix.Remasked` | src/creator/DataQr.js:618-631 | The re-masked matrix is `n × n`. `Matrix.RemaskCell` and `Matrix.RemaskFrame` state it module by module. |
| `Matrix.RemaskFrame` | src/creator/DataQr.js:618-631 | Re-masking leaves pattern modules unchanged, and places the new format codeword when the format positions hold no data. |
| `Matrix.FormatCellValue` | src/creator/DataQr.js:624 | A format position takes the new codeword's bit whatever it held before. |
| `Matrix.RemaskCell` | src/creator/DataQr.js:624-629 | Re-masking one module gives what placing directly under the new mask gives. |
| `Matrix.Symbol` | src/creator/DataQr.js:509-612 | The symbol for a mask is an `n × n` matrix. |
| `Matrix.DataMap` | src/creator/DataQr.js:524 | The data map is an `n × n` matrix. |
| `Matrix.SymbolComplete` | src/creator/DataQr.js:509-612 | The finished symbol is square with every module set. It carries the format codeword of its level and mask and, above version 6, the version codeword. |
| `Matrix.PatternsAgree` | src/creator/DataQr.js:536-583 | Fixed patterns drawn with two different format codewords differ only at format positions, and have the same free modules. |
| `Matrix.SymbolRemask` | src/creator/DataQr.js:618-631 | The data map does not depend on the mask. Re-masking the symbol of one mask to another gives exactly the symbol built directly with that mask. |
| `Matrix.RemaskPlaced` | src/creator/DataQr.js:618-631 | Re-masking a placed matrix module by module agrees with placing under the new mask. |
| `Penalty.Shade` | src/creator/DataQr.js:699 | A line's shades are as long as the line. |
| `Penalty.RunFrom` | src/creator/DataQr.js:699-701 | A run stays within the line and is non-empty when the first module has the asked shade. |
| `Penalty.RunShade` | src/creator/DataQr.js:699-702 | Every module of a run has the run's shade, and the module after the run has the other shade. |
| `Penalty.GroupsRoundTrip` | src/creator/DataQr.js:695-703 | Expanding the light/dark run lengths gives back the line's shades. |
| `Penalty.GroupsMaximal` | src/creator/DataQr.js:695-703 | Apart from the first light run and the last dark run, every run length is positive, so runs are maximal. |
| `Penalty.CountRun` | src/creator/DataQr.js:699 | The inner loop counts exactly the run of one shade. |
| `Penalty.CollectPair` | src/creator/DataQr.js:697-702 | One pass records one light run and one dark run and moves past them. |
| `Penalty.CollectGroups` | src/creator/DataQr.js:695-703 | The loop yields the run lengths of the line, alternately light and dark. |
| `Penalty.RunPenalty` | src/creator/DataQr.js:670-672 | A run scores nothing exactly when it is shorter than five modules. |
| `Penalty.FinderAt` | src/creator/DataQr.js:677-683 | A finder-like 1:1:3:1:1 pattern ending at run `i` spans seven modules, and its middle run is three times its last. |
| `Penalty.GroupsPenalty` | src/creator/DataQr.js:666-688 | Computes one line's run score: the penalties for runs of five or more, plus 40 per finder-like pattern. `Penalty.EvaluateGroups` proves that the loop computes it. |
| `Penalty.EvaluateGroups` | src/creator/DataQr.js:666-688 | The loop sums the penalties for runs of five or more and for finder-like 1:1:3:1:1 patterns with a 4-module light border. |
| `Penalty.Column` | src/creator/DataQr.js:711-713 | A column is as long as the matrix. |
| `Penalty.ScanRow` | src/creator/DataQr.js:718-727 | The loop counts the 2×2 same-colour blocks starting on a row and the dark modules of that row. |
| `Penalty.ScanLine` | src/creator/DataQr.js:690-727 | One outer pass scores the row's runs, the column's runs and the row's 2×2 blocks, and counts its dark modules. |
| `Penalty.ScanLines` | src/creator/DataQr.js:690-728 | The outer loop sums line scores and dark modules over all rows. |
| `Penalty.AddLine` | src/creator/DataQr.js:690-728 | One pass of the outer loop adds line `xy`'s score and dark modules to the running totals. |
| `Penalty.DensityBounds` | src/creator/DataQr.js:730-732 | The density penalty is never negative, and is zero exactly when the dark share deviates from 50% by less than 6%. |
| `Penalty.DensityPenalty` | src/creator/DataQr.js:730-732 | Computes the density penalty with the source's truncation. `Penalty.DensityBounds` states its range and when it is zero. |
| `Penalty.TruncQuotient` | src/creator/DataQr.js:732 | The truncated 5%-step count is never negative, and is zero exactly below a 6% deviation. |
| `Penalty.ScoreNonNegative` | src/creator/DataQr.js:658-735 | A mask's penalty score is never negative. |
| `Penalty.MaskTest` | src/creator/DataQr.js:658-735 | `maskTest` returns the penalty score of the matrix. |
| `Penalty.BestUnique` | src/creator/DataQr.js:639-643 | There is only one best mask: the lowest score, and the lowest index on a tie. |
| `Penalty.SelectMask` | src/creator/DataQr.js:639-643 | The reduction picks the mask with the lowest score, and the first such mask on a tie. |
| `DataQr.AlignmentsFit` | src/creator/DataQr.js:277 | Every alignment coordinate of a version lies inside its symbol, and the symbol size is a valid QR size. |
| `DataQr.PlaceFinders` | src/creator/DataQr.js:552-555 | The finders are drawn on an empty `n × n` matrix. |
| `DataQr.FixedPatterns` | src/creator/DataQr.js:547-583 | The method draws all fixed patterns: finders, timing, alignments, format and version information. |
| `DataQr.MaskScores` | src/creator/DataQr.js:633-637 | There is one score per mask tried. |
| `DataQr.MaskScoresNext` | src/creator/DataQr.js:634-637 | The scores of the first `k + 1` masks are those of the first `k` plus the score of the symbol built with mask `k`. |
| `DataQr.ScoreFirst` | src/creator/DataQr.js:634-636 | The first score is that of the symbol with mask 0. |
| `DataQr.RemaskTo` | src/creator/DataQr.js:618-631 | Re-masking the symbol of one mask gives the symbol of another. |
| `DataQr.TestMask` | src/creator/DataQr.js:635-636 | Testing mask `i` yields the symbol for `i` and its penalty score. |
| `DataQr.TestMasks` | src/creator/DataQr.js:633-637 | The loop scores the symbol for each of the eight masks. |
| `DataQr.AutoMask` | src/creator/DataQr.js:614-649 | The automatic mask is the best one of the eight, and the matrix is the symbol with that mask. |
| `DataQr.BuildMatrix` | src/creator/DataQr.js:509-649 | A given mask is kept, an automatic one is the best by penalty, and the result is the symbol for the chosen mask. |
| `DataQr.DataQR.constructor` | src/creator/DataQr.js:194-252 | A new object holds the given options, no error, no parameters, and empty data, codewords and matrix. |
| `DataQr.DataQR.SetVersion` | src/creator/DataQr.js:255-263 | Setting the version derives the parameters for a valid mode, level and version, and leaves them unchanged otherwise. |
| `DataQr.DataQR.TextToData` | src/creator/DataQr.js:315-345 | The data field becomes the text encoded in the current mode. |
| `DataQr.DataQR.DataToCodewords` | src/creator/DataQr.js:348-410 | The data codewords field becomes the packed, terminated and padded stream for the current parameters, with the corrected terminator (see Findings). |
| `DataQr.DataQR.MakeCodewordsQR` | src/creator/DataQr.js:415-480 | The final codewords are the interleaved data and ECC blocks. There are data plus blocks × ECC-per-block of them. |
| `DataQr.DataQR.MakeMatrix` | src/creator/DataQr.js:509-653 | The mask is valid afterwards: a given mask is kept, and an automatic one is the best of the eight by penalty. The matrix is the complete symbol for the version, level, codewords and that mask. |
| `ControlOptions.PriorityLevels` | src/creator/controlOptionsCreator.js:73 | The priority list holds only valid levels. |
| `ControlOptions.DetectMode` | src/creator/controlOptionsCreator.js:23-38 | A detected mode is one of the three modes, and it is the given mode when one was given. Automatic and octet modes never fail, and the only error is `mode/1`. |
| `ControlOptions.AutoMode` | src/creator/controlOptionsCreator.js:26-33 | An automatic mode is numeric exactly for all-digit text. It is alphanumeric exactly for other text within the alphanumeric set, and octet otherwise. |
| `ControlOptions.ExplicitMode` | src/creator/controlOptionsCreator.js:26-35 | Octet is always accepted. Numeric and alphanumeric are accepted exactly when the text suits them. An unknown mode is error `mode/1`. |
| `ControlOptions.NumericIsAlphanumeric` | src/creator/controlOptionsCreator.js:26-30 | All-digit text is also alphanumeric text. |
| `ControlOptions.DetectModeData` | src/creator/controlOptionsCreator.js:106-113 | The detected mode is valid, and the encoded data suits it. |
| `ControlOptions.FirstFit` | src/creator/controlOptionsCreator.js:87-89 | The search returns the first version from the start that fits, or 41 when none does. |
| `ControlOptions.FirstLevel` | src/creator/controlOptionsCreator.js:76-82 | The search returns the first level in priority order that fits, or 4 when none does. |
| `ControlOptions.SearchVersion` | src/creator/controlOptionsCreator.js:41-104 | A successful search keeps the mode and gives a valid level and a version in 1..40. A given level is kept, and so is a given version. Every failure is a `version` error. |
| `ControlOptions.SearchSound` | src/creator/controlOptionsCreator.js:41-104 | A successful search gives a valid level and a version 1..40 at which the data fits. The level is unchanged when it was given, and so is the version. |
| `ControlOptions.AutoVersionLeast` | src/creator/controlOptionsCreator.js:86-92 | With a given level, the automatic version is the least that fits. Error `version/1` happens exactly when no version fits. |
| `ControlOptions.AutoLevelOrder` | src/creator/controlOptionsCreator.js:86-92 | With both automatic, the result is level H at the least version that fits H. Failing that, it is version 40 with the first of Q, M, L that fits. |
| `ControlOptions.AutoLevelFails` | src/creator/controlOptionsCreator.js:86-92 | With both automatic, error `version/1` happens exactly when no level fits even at version 40. |
| `ControlOptions.ExplicitVersion` | src/creator/controlOptionsCreator.js:94-98 | A version outside 1..40 is error `version/2`. A given version succeeds exactly when the level (or some level, in priority order) fits, and fails with `version/3` otherwise. |
| `ControlOptions.MaskEightAccepted` | src/creator/controlOptionsCreator.js:119-120 | The check as written accepts mask 8, which has no mask pattern. Its format codeword for level M equals that of level L with mask 0. |
| `ControlOptions.MaskAcceptedAsWritten` | src/creator/controlOptionsCreator.js:119 | The check as written accepts exactly the masks the corrected check accepts, plus mask 8. |
| `ControlOptions.AcceptedMaskDecodes` | src/creator/controlOptionsCreator.js:119-120 | A mask passing the corrected check is automatic or one of the eight patterns, and its format codeword decodes to the level and mask. |
| `ControlOptions.Validate` | src/creator/controlOptionsCreator.js:106-120 | Accepted options have a non-empty string, a valid mode (the given one unless automatic) and a mask the corrected check accepts. A text that is not a string is error `text/1`. |
| `ControlOptions.ValidateData` | src/creator/controlOptionsCreator.js:113-120 | Accepted data is non-empty, the level option lies in -1..3, the mask passes the corrected check, and the mode is kept. A given level is kept, and so is a given version. |
| `ControlOptions.ValidateSound` | src/creator/controlOptionsCreator.js:106-120 | Accepted options give a text string, a valid mode, level and version, and non-empty data of a suitable kind that fits in the version's data bits, and the mask is automatic or 0..7. |
| `ControlOptions.TestMode` | src/creator/controlOptionsCreator.js:23-38 | The mode becomes the detected one, or stays as given with the mode error. |
| `ControlOptions.FitLength` | src/creator/controlOptionsCreator.js:64-68 | Setting the version configures the object, and the answer is whether the data fits. |
| `ControlOptions.EcclVersion` | src/creator/controlOptionsCreator.js:71-83 | With a given level, the answer is whether it fits. Otherwise levels are tried in priority order from the start index, and the first that fits is kept. |
| `ControlOptions.FirstVersion` | src/creator/controlOptionsCreator.js:87-89 | The loop finds the first version that fits, and leaves the object configured for it. |
| `ControlOptions.AutoVersion` | src/creator/controlOptionsCreator.js:86-93 | The automatic search ends in the state, or the error, the search specification gives. |
| `ControlOptions.TestVersion` | src/creator/controlOptionsCreator.js:41-104 | On success the object holds the level and version the search specification chooses. Otherwise the search's error is returned. |
| `ControlOptions.CheckOptions` | src/creator/controlOptionsCreator.js:106-120 | The checks run in the source's order, and the first failure is returned. On success the object holds the chosen mode, level, version and the encoded data. |
| `ControlOptions.CheckData` | src/creator/controlOptionsCreator.js:113-120 | After the data is set: empty data, a level outside -1..3, a version that fails, or a mask other than -1 and 0..7 (the corrected check, see Findings) is reported, in that order. Otherwise the chosen level and version are set with their parameters. |
| `ControlOptions.ControlOptionsCreator` | src/creator/controlOptionsCreator.js:6-135 | A failure sets `error` and `errorSubcode` from the first failing check. Success leaves them, and configures the object with the chosen mode, level and version and the encoded data. |

## Left out

- Rendering, downloading and the error report of the `QRCODE` class, the demo page `docs/js/app.js` and `webpack.config.js`: browser I/O and build configuration.
- The image, module-size and margin checks (`src/creator/controlOptionsCreator.js:122-129`) only feed the rendering, which is not modelled.
- `src/lib/iso` is not part of this model. Its tables are a `Tables` parameter constrained by `ValidTables`, and its small constants are restated from ISO/IEC 18004.
- `notInteger` and JavaScript number coercion: options are mathematical integers, so non-integral and out-of-range numbers are not modelled.
- Text is a sequence of Unicode code points. JavaScript's UTF-16 string layout and surrogate pairs are not modelled.
- Matrices are sequences of rows (values). In-place update of the shared row arrays and aliasing between `matrix` and the mask-testing copies are not modelled.
- The density penalty uses exact rational arithmetic with the source's truncation (`| 0`). Floating-point rounding at exact boundaries is not captured.
- `Matrix.Symbol` draws the format codeword listed in ISO/IEC 18004 Annex C. `FormatInfo.FormatListed` proves that it equals the one `makeCodewordFormat` computes.
- DataQr.DataQR.TextToData: requires `data` to be empty (the object is fresh when the source calls it). A second call, which would append again, is not modelled.
- DataQr.DataQR.MakeMatrix: requires a mask below 8. With mask 8 the source fails at the first data module, because it has no mask function for 8 (see Findings).
- ControlOptions.ControlOptionsCreator: after a failed version search, the level, version and parameters the search left behind are not stated; only the error is.
- ControlOptions.ControlOptionsCreator: records `mask`/`1` for mask 8, which the source's check lets through with no error; the model uses the corrected mask check (see Findings).
- ControlOptions.CheckOptions: as for `ControlOptionsCreator`, the fields left after a failure are not stated.
- ControlOptions.CheckOptions: returns the `mask`/`1` failure for mask 8, where the source returns none (corrected mask check, see Findings).
- ControlOptions.CheckData: rejects mask 8, which `src/creator/controlOptionsCreator.js:119` accepts (corrected mask check, see Findings).
- DataQr.BuildMatrix: requires a mask below 8 (a negative one means automatic), so the source's mask-8 path, which passes validation and fails in `makeMatrix`, is not modelled (see Findings).
- DataQr.DataQR.DataToCodewords: the field gets the corrected terminator stream. Where the stream exactly fills `bitsData` (27 digits at version 1, level Q, which `fitLength` accepts), the source pushes one codeword more, and the error correction computed from it differs; that behaviour is modelled only by `Codewords.FinishAsWritten` (see Findings).
- DataQr.DataQR.constructor: takes every option explicitly. The source's defaults (`text` is `''`, and `mode`, `eccl`, `version` and `mask` are -1 when not given) are left to the caller.
- Codewords.DataToCodewords: models the corrected terminator rule (see Findings), not the extra codeword of the code as written.
- ControlOptions.ValidateSound: is about the corrected mask check, which rejects mask 8 (see Findings).
- ControlOptions.Validate: uses the corrected mask check and rejects mask 8 (see Findings); `ControlOptions.MaskAcceptedAsWritten` is the check as written.
- ControlOptions.ValidateData: as for `Validate`, rejects mask 8 (see Findings).
- Iso.MaskCondition: its contract characterises mask 0 only; the other seven conditions are given by the definition, as in Table 10 of ISO/IEC 18004.
- Capacity.MaxLength: its own contract gives only the sign of the capacity; `Capacity.MaxLengthExact` and `Capacity.MaxLengthTight` give its exact value.

## Findings

| source | as written | input that shows it | evidently intended | confidence | as-written member | corrected member |
|---|---|---|---|---|---|---|
| src/creator/DataQr.js:401 | The 4-bit terminator is packed whenever the stream is byte-aligned and fewer than `bitsData/8` codewords exist. That check does not consider whether any room is left, so a stream that exactly fills the capacity gets a terminator codeword beyond it. | 27 digits at version 1, level Q: 4 + 10 + 90 = 104 = `bitsData` bits, and 14 data codewords come out where 13 fit | Add the terminator only as far as it fits, giving exactly `bitsData/8` codewords | not executed | `Codewords.FinishAsWrittenOverflows` | `Codewords.FinishShape` |
| src/creator/controlOptionsCreator.js:119 | The mask check rejects only masks above 8, so mask 8 is accepted | mask 8 with level M: there is no eighth mask function, and the format data `(0 << 3) \| 8` equals that of level L with mask 0 | Accept only -1 and 0..7; the checks and the matrix construction of this model use that corrected rule | not executed | `ControlOptions.MaskEightAccepted` | `ControlOptions.AcceptedMaskDecodes` |

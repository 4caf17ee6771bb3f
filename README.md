# Image block codec: blocks, zig-zag scan and run-length entropy coding

This is a Dafny model of the integer back half of a small JPEG-style image codec written in Java.

- **Encoder.** The encoder cuts the Y, U and V planes of an image into 8x8 blocks. It subsamples each U and V block 4:2:0, so every 2x2 cell takes the mean of its four samples. It reads each block in the zig-zag order of Figure A.6 of ITU-T T.81. It then codes each block as one entropy record: a DC term for the first coefficient, and a list of AC objects (run of zeros, size category, amplitude). A final marker (run, 0, 0) closes a block that ends in zeros. The records are interleaved Y, U, V, one triple per block index.
- **Decoder.** The decoder walks each record back along the zig-zag order. It counts the AC objects' run lengths down in place and writes the coefficients into the record's block. It then puts the blocks back together into three planes of `height x width` samples.

Modules, one per concern of the source:

| module | file | models |
|---|---|---|
| `Wrappers` | wrappers.dfy | `Option`, used for the exception paths |
| `AmplitudeMap` | amplitude_map.dfy | the size-category table and its lookup |
| `ZigZag` | zig_zag.dfy | the zig-zag order as a function `ZZ` from scan position to cell, with its inverse `ZZIndex` |
| `BlockGrid` | block_grid.dfy | where block (line, column) sits in a row-major block list; the slot index the transforms use |
| `Blocks` | block.dfy | the `Block` class, a tagged square grid of doubles (`real`) updated in place |
| `EntropyTerms` | entropy_terms.dfy | the `AC` class (its run length is decremented in place), the `DC` and `Entropy` records, and `Snapshot` (the terms a list of AC objects holds in the current heap) |
| `RunLength` | run_length.dfy | the run-length coding of a zig-zag sequence, and its reference inverse `Expand` |
| `RunExpansion` | run_expansion.dfy | the decoder's walk as a state machine over the 64 positions (`Step`, `Steps`, `Decode`) under two readings: `AsWritten` follows the code, `Intended` writes the amplitude after a counted run |
| `Encoding` | encoder.dfy | the `Encoder` class: block cut, subsampling, zig-zag scan, block coding, entropy list |
| `Decoding` | decoder.dfy | the `Decoder` class: the zig-zag walk, entropy decoding, plane assembly |

How the model is built:

- **Classes and loops.** The Java loops are `while` loops with invariants. The longer methods are split into helper methods along their loops: `ScanUpperLeft`/`ScanLowerRight` for the two halves of the zig-zag walk, `CopyAll`/`CopyBlocks` for the assembly loop, `DecodeRecord` for one turn of `entropyDecoding`.
- **How each method is proved.** Each method is proved against a function on values. The encoder's scan is proved against `Encoding.Scan`, built on `ZigZag.ZZ`. The coding is proved against `RunLength.EncodeAC`. The decoder's walk is proved against `RunExpansion.Decode`. The assembly is proved against `Decoding.Assembled`.
- **Properties.** The round trips, the orderings and the bounds are lemmas about those functions.
- **Exceptions.** A Java exception (an `IndexOutOfBoundsException` of a list lookup or an array write) is a `false` `ok` result, or `None` in the state machine.

## Model

| member | source | states |
|---|---|---|
| AmplitudeMap.GetCorrespondingSize | Lab_image_encoder_decoder/src/pdav/tudor/domain/AmplitudeMap.java:24-32 | the size is the value's category: the bit length of the magnitude when 1 <= the magnitude <= 1023, and 0 otherwise; always within 0..10 |
| AmplitudeMap.ForEachMatch | Lab_image_encoder_decoder/src/pdav/tudor/domain/AmplitudeMap.java:25-31 | definition: the forEach over the keys in a given order, the last matching key overwriting the result; ForEachMatchIsCategory and LookupIgnoresOrder state what it computes |
| AmplitudeMap.TableIsPowersOfTwo | Lab_image_encoder_decoder/src/pdav/tudor/domain/AmplitudeMap.java:11-22 | the keys are 1..10, and key k holds the range [2^(k-1), 2^k - 1] |
| AmplitudeMap.KeyMatchesCategory | Lab_image_encoder_decoder/src/pdav/tudor/domain/AmplitudeMap.java:26-28 | the lambda's test holds for key k exactly when k is the value's category |
| AmplitudeMap.RangesDisjoint | Lab_image_encoder_decoder/src/pdav/tudor/domain/AmplitudeMap.java:11-22 | no value lies in the ranges of two different keys, so at most one key sets the result |
| AmplitudeMap.ForEachMatchIsCategory | Lab_image_encoder_decoder/src/pdav/tudor/domain/AmplitudeMap.java:25-31 | over any sequence of keys, the forEach leaves the category if the category is among the keys, and otherwise the initial result |
| AmplitudeMap.LookupIgnoresOrder | Lab_image_encoder_decoder/src/pdav/tudor/domain/AmplitudeMap.java:24-32 | for any HashMap iteration order covering all keys, the lookup from 0 gives the category |
| AmplitudeMap.SizeOfRange | Lab_image_encoder_decoder/src/pdav/tudor/domain/AmplitudeMap.java:24-32 | for k in 1..10, the size is k iff the magnitude lies in [2^(k-1), 2^k - 1] |
| AmplitudeMap.SizeZero | Lab_image_encoder_decoder/src/pdav/tudor/domain/AmplitudeMap.java:24-32 | the size is 0 iff the value is 0 or its magnitude is at least 1024 |
| AmplitudeMap.SizeSymmetric | Lab_image_encoder_decoder/src/pdav/tudor/domain/AmplitudeMap.java:27 | -v has the size of v |
| AmplitudeMap.SizeBoundaries | Lab_image_encoder_decoder/src/pdav/tudor/domain/AmplitudeMap.java:11-32 | the sizes of 0, ±1, 2, 3, 4, ±1023 and ±1024 |
| ZigZag.ZZ | Lab_image_encoder_decoder/src/pdav/tudor/domain/Encoder.java:241-334 | the cell at scan position k lies in the 8x8 grid; k < 36 iff the cell is in the upper-left triangle (row + col < 8) |
| ZigZag.ZZIndex | Lab_image_encoder_decoder/src/pdav/tudor/domain/Encoder.java:241-334 | the scan position of a cell is in 0..63 |
| ZigZag.Diagonal | Lab_image_encoder_decoder/src/pdav/tudor/domain/Encoder.java:242-243 | the anti-diagonal d holding position k < 36 satisfies Tri(d) <= k < Tri(d + 1) |
| ZigZag.DiagonalUnique | Lab_image_encoder_decoder/src/pdav/tudor/domain/Encoder.java:242-243 | that anti-diagonal is unique |
| ZigZag.LowerZZ | Lab_image_encoder_decoder/src/pdav/tudor/domain/Encoder.java:241-274 | position k < 36 is a cell on anti-diagonal Diagonal(k) |
| ZigZag.LowerIndex | Lab_image_encoder_decoder/src/pdav/tudor/domain/Encoder.java:241-274 | the position of a cell of the upper-left triangle is below Tri(row + col + 1) |
| ZigZag.ZZLowerWalk | Lab_image_encoder_decoder/src/pdav/tudor/domain/Encoder.java:241-274 | the first loop reads cell i of anti-diagonal d at position Tri(d) + i |
| ZigZag.ZZUpperWalk | Lab_image_encoder_decoder/src/pdav/tudor/domain/Encoder.java:291-334 | the second loop reads cell i of diagonal diag at position 64 - Tri(diag) + i |
| ZigZag.UpperMirrorsLower | Lab_image_encoder_decoder/src/pdav/tudor/domain/Encoder.java:291-334 | the lower-right triangle is the upper-left one turned half a turn about the centre |
| ZigZag.LowerMove | Lab_image_encoder_decoder/src/pdav/tudor/domain/Encoder.java:253-259 | inside the first half, an odd diagonal steps down-left and an even one steps up-right |
| ZigZag.LowerTurn | Lab_image_encoder_decoder/src/pdav/tudor/domain/Encoder.java:262-273 | after an odd diagonal the walk goes one row down, after an even one column right; the direction flips |
| ZigZag.UpperMove | Lab_image_encoder_decoder/src/pdav/tudor/domain/Encoder.java:309-315 | inside the second half, an even diagonal steps down-left and an odd one steps up-right |
| ZigZag.UpperTurn | Lab_image_encoder_decoder/src/pdav/tudor/domain/Encoder.java:318-333 | on an odd diagonal the walk ends on the last column and goes one row down; on an even one it ends on the last row and goes one column right |
| ZigZag.ZZIndexOfZZ | Lab_image_encoder_decoder/src/pdav/tudor/domain/Encoder.java:241-334 | ZZIndex undoes ZZ |
| ZigZag.ZZOfZZIndex | Lab_image_encoder_decoder/src/pdav/tudor/domain/Encoder.java:241-334 | ZZ undoes ZZIndex, so every cell is read |
| ZigZag.ZZOfLowerIndex | Lab_image_encoder_decoder/src/pdav/tudor/domain/Encoder.java:241-274 | in the upper-left triangle a cell's position is read back at that cell |
| ZigZag.ZZInjective | Lab_image_encoder_decoder/src/pdav/tudor/domain/Encoder.java:241-334 | two positions read the same cell iff they are equal |
| ZigZag.ZZPermutation | Lab_image_encoder_decoder/src/pdav/tudor/domain/Encoder.java:241-334 | the scan's image is exactly the 64 cells of the grid |
| ZigZag.ZZOrder | Lab_image_encoder_decoder/src/pdav/tudor/domain/Encoder.java:241-334 | the first cells and the last cells of the scan, as in Figure A.6 of ITU-T T.81 |
| BlockGrid.BlockIndexRow | Lab_image_encoder_decoder/src/pdav/tudor/domain/Decoder.java:53-75 | the blocks of block row line have the wd indices from line * wd on |
| BlockGrid.RowEnd | Lab_image_encoder_decoder/src/pdav/tudor/domain/Decoder.java:57-62 | one past the last block of a row is the first block of the next row |
| BlockGrid.BlockIndexBounds | Lab_image_encoder_decoder/src/pdav/tudor/domain/Encoder.java:146-164 | every block of an hd x wd grid has an index in 0 .. hd*wd - 1 |
| BlockGrid.BlockIndexInverse | Lab_image_encoder_decoder/src/pdav/tudor/domain/Encoder.java:146-164 | the index gives back the block row (k / wd) and the block column (k % wd) |
| BlockGrid.BlockIndexInjective | Lab_image_encoder_decoder/src/pdav/tudor/domain/Encoder.java:146-164 | two blocks share an index only if they are the same block |
| BlockGrid.BlockIndexOnto | Lab_image_encoder_decoder/src/pdav/tudor/domain/Encoder.java:146-164 | every index below hd*wd is the index of a block of the grid |
| BlockGrid.JavaDiv | Lab_image_encoder_decoder/src/pdav/tudor/domain/Encoder.java:204 | Java's int division agrees with Dafny's on nonnegative numerators |
| BlockGrid.SlotIndexWhenAligned | Lab_image_encoder_decoder/src/pdav/tudor/domain/Encoder.java:204 | when the width is a multiple of 8, the slot line * width / 8 + column is the block's index |
| BlockGrid.SlotIndexDrifts | Lab_image_encoder_decoder/src/pdav/tudor/domain/Encoder.java:204 | otherwise block row 8 starts at slot width, past its index |
| BlockGrid.SlotIndexCorrectIff | Lab_image_encoder_decoder/src/pdav/tudor/domain/Encoder.java:204 | the slot agrees with the block index on every row iff the width is a multiple of 8 |
| BlockGrid.SlotIndexPastEnd | Lab_image_encoder_decoder/src/pdav/tudor/domain/Decoder.java:138 | for a plane 12 wide and 24 high the slot of block (2, 0) is 3, past the end of the three-block list |
| BlockGrid.SlotIndex | Lab_image_encoder_decoder/src/pdav/tudor/domain/Encoder.java:204 | definition: the slot line * width / 8 + column with Java's left-to-right int arithmetic; SlotIndexWhenAligned, SlotIndexDrifts, SlotIndexCorrectIff and SlotIndexPastEnd state when it is the block index |
| Blocks.Block.constructor | Lab_image_encoder_decoder/src/pdav/tudor/domain/Block.java:8-13 | a new size x size grid of zeros, tagged (line, column) |
| Blocks.Block.ModifyValue | Lab_image_encoder_decoder/src/pdav/tudor/domain/Block.java:15-17 | the cell takes the value and no other cell changes |
| Blocks.Block.ModifyValues | Lab_image_encoder_decoder/src/pdav/tudor/domain/Block.java:19-25 | each of the size x size cells takes the integer grid's entry, as a double |
| Blocks.Block.GetValue | Lab_image_encoder_decoder/src/pdav/tudor/domain/Block.java:27-29 | definition: the value stored at a cell; ModifyValue's contract is stated through it, and the encoder's mean loop and the decoder's copy loop read the block through it |
| Blocks.Block.GetLine | Lab_image_encoder_decoder/src/pdav/tudor/domain/Block.java:50-52 | definition: the block row tag set by the constructor, which never changes |
| Blocks.Block.GetColumn | Lab_image_encoder_decoder/src/pdav/tudor/domain/Block.java:54-56 | definition: the block column tag set by the constructor, which never changes |
| Blocks.Block.GetValues | Lab_image_encoder_decoder/src/pdav/tudor/domain/Block.java:58-60 | the block's own array is returned, not a copy |
| EntropyTerms.AC.constructor | Lab_image_encoder_decoder/src/pdav/tudor/domain/entropy/AC.java:8-12 | the three fields take the arguments |
| EntropyTerms.AC.DecrementRunLength | Lab_image_encoder_decoder/src/pdav/tudor/domain/entropy/AC.java:14-16 | the run length drops by one; the size and the amplitude stay |
| EntropyTerms.AC.Value | Lab_image_encoder_decoder/src/pdav/tudor/domain/entropy/AC.java:18-28 | definition: the three getters read together as one term; Snapshot lists it for each object, and the encoder's and the decoder's contracts say what the objects hold through Snapshot |
| RunLength.EncodeRoundTrip | Lab_image_encoder_decoder/src/pdav/tudor/domain/Encoder.java:345-356 | expanding the AC list gives back s[1..], so the list spans the 63 AC positions |
| RunLength.EncodeForm | Lab_image_encoder_decoder/src/pdav/tudor/domain/Encoder.java:347-356 | every term is a value term (nonzero amplitude with its category, run >= 0) except a last marker with a positive run; the list is well formed |
| RunLength.EncodeAmplitudes | Lab_image_encoder_decoder/src/pdav/tudor/domain/Encoder.java:347-355 | the amplitudes of the value terms are the nonzero AC coefficients, in order |
| RunLength.EncodeMarker | Lab_image_encoder_decoder/src/pdav/tudor/domain/Encoder.java:356 | the list is never empty; it ends with a marker iff s[63] == 0, and the marker counts exactly the final zeros |
| RunLength.EncodeDC | Lab_image_encoder_decoder/src/pdav/tudor/domain/Encoder.java:340-343 | definition: the DC term, the category of s[0] and s[0] itself |
| RunLength.EncodeFrom | Lab_image_encoder_decoder/src/pdav/tudor/domain/Encoder.java:347-356 | definition: the terms emitted from a position with a count of pending zeros; ExpandEncodeFrom, EncodeFromForm, AmplitudesEncodeFrom and MarkerFrom state what it emits |
| RunLength.EncodeAC | Lab_image_encoder_decoder/src/pdav/tudor/domain/Encoder.java:345-356 | definition: the AC list of a block; EncodeRoundTrip, EncodeForm, EncodeAmplitudes and EncodeMarker state its properties |
| RunExpansion.Step | Lab_image_encoder_decoder/src/pdav/tudor/domain/Decoder.java:190-203 | a step fails (the list lookup throws) iff it is an AC position and the cursor is past the list; it keeps the sizes |
| RunExpansion.Steps | Lab_image_encoder_decoder/src/pdav/tudor/domain/Decoder.java:187-303 | positions k .. n - 1 of the walk, stopping at the first exception; a run that goes through keeps the sizes (StepsSplit and TraceOf relate it to the single steps) |
| RunExpansion.Decode | Lab_image_encoder_decoder/src/pdav/tudor/domain/Decoder.java:161-305 | definition: the whole walk of a block from the all-zero grid; DecodeWellFormed, DecodeRunsOut, DecodeEncodedAsWritten and DecodeEncodedIntended state what it gives |
| RunExpansion.ReadIntended | Lab_image_encoder_decoder/src/pdav/tudor/domain/Decoder.java:193-203 | under the intended reading a term list reads as the reference expansion |
| RunExpansion.StepsSplit | Lab_image_encoder_decoder/src/pdav/tudor/domain/Decoder.java:187-303 | running positions k..n is running k..m, then m..n |
| RunExpansion.TraceOf | Lab_image_encoder_decoder/src/pdav/tudor/domain/Decoder.java:187-303 | the sequence of states before each position starts at the initial state and ends at the result |
| RunExpansion.TraceNone | Lab_image_encoder_decoder/src/pdav/tudor/domain/Decoder.java:193 | once the decoder has thrown it has thrown for the whole block |
| RunExpansion.MarkerHolds | Lab_image_encoder_decoder/src/pdav/tudor/domain/Decoder.java:193 | a marker under the cursor is never passed, and the state stays as it is to the end |
| RunExpansion.CountDown | Lab_image_encoder_decoder/src/pdav/tudor/domain/Decoder.java:194-196 | a value term with run m > 0 is counted down to 0 over m positions, raising the flag |
| RunExpansion.ValueTermSteps | Lab_image_encoder_decoder/src/pdav/tudor/domain/Decoder.java:193-203 | a value term with run r takes r + 1 positions, moves the cursor on by one, and writes its amplitude only when r == 0 or under the intended reading |
| RunExpansion.DecodeFrom | Lab_image_encoder_decoder/src/pdav/tudor/domain/Decoder.java:187-303 | from position k, a well-formed rest of the list spanning the positions left is read without an exception, and every term ends spent |
| RunExpansion.DecodeWellFormed | Lab_image_encoder_decoder/src/pdav/tudor/domain/Decoder.java:161-305 | a well-formed list spanning 63 positions decodes to the DC amplitude followed by the list's reading, and every term ends spent |
| RunExpansion.DecodeStarts | Lab_image_encoder_decoder/src/pdav/tudor/domain/Decoder.java:190-192 | position 0 takes the DC amplitude and leaves the terms alone |
| RunExpansion.DecodeFromRunsOut | Lab_image_encoder_decoder/src/pdav/tudor/domain/Decoder.java:193 | a marker-free rest spanning fewer positions than are left makes the lookup throw |
| RunExpansion.DecodeRunsOut | Lab_image_encoder_decoder/src/pdav/tudor/domain/Decoder.java:193 | a marker-free list spanning fewer than 63 positions (the empty list, say) throws |
| RunExpansion.ReadEncodeFrom | Lab_image_encoder_decoder/src/pdav/tudor/domain/Decoder.java:193-203 | the as-written reading of the encoder's terms from a position is the pending zeros, then AsDecoded(s) from that position |
| RunExpansion.DecodeEncodedAsWritten | Lab_image_encoder_decoder/src/pdav/tudor/domain/Decoder.java:161-305 | as written, an encoded block decodes without an exception to AsDecoded(s), and its terms end as Spent(EncodeAC(s)): every value term with run length 0, the marker unchanged |
| RunExpansion.DecodeEncodedIntended | Lab_image_encoder_decoder/src/pdav/tudor/domain/Decoder.java:197-199 | under the intended reading, decoding an encoded block gives the block back |
| RunExpansion.AsDecodedIsIdentityIff | Lab_image_encoder_decoder/src/pdav/tudor/domain/Decoder.java:197-199 | as written, the decoder gives the block back iff no nonzero coefficient past position 1 follows a zero |
| RunExpansion.DecodeLosesValueAfterZero | Lab_image_encoder_decoder/src/pdav/tudor/domain/Decoder.java:197-199 | the block 0, 0, 5, 0, ... decodes, as written, with a 0 at position 2 |
| Encoding.TruncToIntBounds | Lab_image_encoder_decoder/src/pdav/tudor/domain/Encoder.java:244 | the (int) cast keeps the sign and drops the fraction |
| Encoding.TruncToIntOfInt | Lab_image_encoder_decoder/src/pdav/tudor/domain/Encoder.java:153 | the cast leaves an integral value unchanged |
| Encoding.TruncToInt | Lab_image_encoder_decoder/src/pdav/tudor/domain/Encoder.java:244 | definition: Java's (int) cast of a double, rounding toward zero; TruncToIntBounds states it |
| Encoding.Scan | Lab_image_encoder_decoder/src/pdav/tudor/domain/Encoder.java:227-336 | the scan of an 8x8 grid has 64 entries |
| Encoding.ScanCell | Lab_image_encoder_decoder/src/pdav/tudor/domain/Encoder.java:244 | cell (row, col) is scan entry ZZIndex(row, col), cast to int |
| Encoding.ScanLower | Lab_image_encoder_decoder/src/pdav/tudor/domain/Encoder.java:243-245 | cell i of anti-diagonal d is scan entry Tri(d) + i |
| Encoding.ScanUpper | Lab_image_encoder_decoder/src/pdav/tudor/domain/Encoder.java:300-302 | cell i of diagonal diag of the second half is scan entry 64 - Tri(diag) + i |
| Encoding.CellsTakeMeans | Lab_image_encoder_decoder/src/pdav/tudor/domain/Encoder.java:126-129 | in a grid where every entry is its cell's mean (the 4 x 4 table Means), the four entries of a cell are equal and sum to four means |
| Encoding.ArraysSnoc | Lab_image_encoder_decoder/src/pdav/tudor/domain/Encoder.java:162 | appending a block adds its array to the list's arrays |
| Encoding.PartitionAppendRow | Lab_image_encoder_decoder/src/pdav/tudor/domain/Encoder.java:146-164 | the partition of line block rows, followed by block row line, is the partition of line + 1 rows |
| Encoding.SourceAt | Lab_image_encoder_decoder/src/pdav/tudor/domain/Encoder.java:364-368 | position 3 * index + kind is block index of the kind-th list |
| Encoding.InterleavedRecord | Lab_image_encoder_decoder/src/pdav/tudor/domain/Encoder.java:361-369 | record j of an interleaved list codes block j / 3 of the Y, U or V list, chosen by j % 3 |
| Encoding.InterleavedSnoc | Lab_image_encoder_decoder/src/pdav/tudor/domain/Encoder.java:364-368 | appending the record of the next block keeps the list interleaved |
| Encoding.SeparateSnoc | Lab_image_encoder_decoder/src/pdav/tudor/domain/Encoder.java:346-352 | appending a record of new objects keeps the records free of shared objects |
| Encoding.Encoder.constructor | Lab_image_encoder_decoder/src/pdav/tudor/domain/Encoder.java:15-29 | an encoder over three height x width planes with empty block and entropy lists |
| Encoding.Encoder.SampleMean | Lab_image_encoder_decoder/src/pdav/tudor/domain/Encoder.java:118-125 | the average is the mean of the four samples of the 2x2 cell |
| Encoding.Encoder.FillSample | Lab_image_encoder_decoder/src/pdav/tudor/domain/Encoder.java:126-129 | the four samples of the cell take the average, and no other cell changes |
| Encoding.Encoder.SubsampleRow | Lab_image_encoder_decoder/src/pdav/tudor/domain/Encoder.java:117-130 | the four cells of a cell row take their means, and the other rows stay |
| Encoding.Encoder.Subsampling | Lab_image_encoder_decoder/src/pdav/tudor/domain/Encoder.java:112-132 | every sample becomes the old mean of its 2x2 cell, so the four samples of each cell are equal and keep their sum |
| Encoding.Encoder.CopyCut | Lab_image_encoder_decoder/src/pdav/tudor/domain/Encoder.java:149-158 | cell (l, c) of the block takes sample (bl*8 + l, bc*8 + c) of the plane |
| Encoding.Encoder.CutBlock | Lab_image_encoder_decoder/src/pdav/tudor/domain/Encoder.java:148-161 | one new block holding the samples it covers, subsampled for 'U' and 'V' |
| Encoding.Encoder.CutRow | Lab_image_encoder_decoder/src/pdav/tudor/domain/Encoder.java:147-163 | the wd new blocks of one block row, in column order |
| Encoding.Encoder.DivideIntoBlocks | Lab_image_encoder_decoder/src/pdav/tudor/domain/Encoder.java:134-166 | the (height/8) x (width/8) blocks of the chosen plane in row-major order, each with a new array; samples past the last whole block are dropped |
| Encoding.Encoder.DivideAll | Lab_image_encoder_decoder/src/pdav/tudor/domain/Encoder.java:168-172 | the three partitions, with pairwise disjoint new arrays |
| Encoding.Encoder.SetBlocks | Lab_image_encoder_decoder/src/pdav/tudor/domain/Encoder.java:168-172 | the three lists become the encoder's, and nothing else changes |
| Encoding.Encoder.StoreBlocks | Lab_image_encoder_decoder/src/pdav/tudor/domain/Encoder.java:168-172 | the Y blocks, then the subsampled U and V blocks, each list a partition of its plane, with disjoint new arrays |
| Encoding.Encoder.ZigZagMatrix | Lab_image_encoder_decoder/src/pdav/tudor/domain/Encoder.java:227-336 | a new 64-entry array holding the grid in zig-zag order, each entry cast to int |
| Encoding.Encoder.ScanUpperLeft | Lab_image_encoder_decoder/src/pdav/tudor/domain/Encoder.java:241-274 | the first 36 entries are the scan's, and the walk ends at cell (7, 0) going down |
| Encoding.Encoder.ScanLowerDiagonal | Lab_image_encoder_decoder/src/pdav/tudor/domain/Encoder.java:243-260 | one anti-diagonal of the first half is written at its scan positions |
| Encoding.Encoder.ScanLowerRight | Lab_image_encoder_decoder/src/pdav/tudor/domain/Encoder.java:291-334 | the remaining 28 entries complete the scan |
| Encoding.Encoder.ScanUpperDiagonal | Lab_image_encoder_decoder/src/pdav/tudor/domain/Encoder.java:300-316 | one diagonal of the second half is written at its scan positions |
| Encoding.Encoder.Put | Lab_image_encoder_decoder/src/pdav/tudor/domain/Encoder.java:244 | entry index takes the cast cell, and the entries before it stay |
| Encoding.Encoder.EncodeBlock | Lab_image_encoder_decoder/src/pdav/tudor/domain/Encoder.java:338-359 | the record codes the block's scan (DC term and run-length AC terms), with new, distinct AC objects |
| Encoding.Encoder.RunLengths | Lab_image_encoder_decoder/src/pdav/tudor/domain/Encoder.java:345-356 | the AC objects hold exactly EncodeAC of the zig-zag sequence |
| Encoding.Encoder.AddAC | Lab_image_encoder_decoder/src/pdav/tudor/domain/Encoder.java:350-352 | the list with one new object holding the given term appended |
| Encoding.Encoder.EntropyEncoding | Lab_image_encoder_decoder/src/pdav/tudor/domain/Encoder.java:361-369 | the records are interleaved Y, U, V; all 3 * \|Y\| are made iff the U and V lists are long enough; otherwise the list stops at the first failing lookup |
| Encoding.Encoder.EncodeAll | Lab_image_encoder_decoder/src/pdav/tudor/domain/Encoder.java:364-368 | the loop of entropyEncoding on the three lists, with the same outcome |
| Encoding.Encoder.AddTriple | Lab_image_encoder_decoder/src/pdav/tudor/domain/Encoder.java:365-367 | one pass appends 3, 2 or 1 records, by which lookups succeed |
| Encoding.Encoder.Add | Lab_image_encoder_decoder/src/pdav/tudor/domain/Encoder.java:365 | the record of one block is appended at its interleaved position |
| Decoding.Grid | Lab_image_encoder_decoder/src/pdav/tudor/domain/Decoder.java:161-305 | the 64 cells of the grid in zig-zag order |
| Decoding.MatchesCells | Lab_image_encoder_decoder/src/pdav/tudor/domain/Decoder.java:161-305 | a grid matching a sequence in zig-zag order holds entry ZZIndex(r, c) at each cell (r, c) |
| Decoding.PlaneHoldsStart | Lab_image_encoder_decoder/src/pdav/tudor/domain/Decoder.java:49-51 | an all-zero plane holds none of the blocks yet |
| Decoding.BlockFits | Lab_image_encoder_decoder/src/pdav/tudor/domain/Decoder.java:66-72 | block k < n / 8 of a row or column of n samples lies inside it |
| Decoding.ExpectedStep | Lab_image_encoder_decoder/src/pdav/tudor/domain/Decoder.java:66-72 | copying block n brings in exactly that block's cells |
| Decoding.PlaneAssembled | Lab_image_encoder_decoder/src/pdav/tudor/domain/Decoder.java:39-76 | a plane holding all hd*wd blocks is the block grid put back together |
| Decoding.SeparateApart | Lab_image_encoder_decoder/src/pdav/tudor/domain/Decoder.java:307-317 | no AC object belongs to two records |
| Decoding.FitsInRange | Lab_image_encoder_decoder/src/pdav/tudor/domain/Decoder.java:63-65 | on a plane that fits, every block the loop reaches is in all three lists |
| Decoding.PartitionsUnshared | Lab_image_encoder_decoder/src/pdav/tudor/domain/Encoder.java:168-172 | the three partitions StoreBlocks leaves, with no grid in two lists, are unshared: no two records of the interleaved list go to blocks with the same grid |
| Decoding.Decoder.constructor | Lab_image_encoder_decoder/src/pdav/tudor/domain/Decoder.java:28-37 | the decoder holds the three block lists and the image size |
| Decoding.Decoder.ZigZagMatrix | Lab_image_encoder_decoder/src/pdav/tudor/domain/Decoder.java:161-305 | a new zero grid: ok iff the state machine, started on the terms the AC objects hold (Snapshot), does not throw; then cell (r, c) holds the decoded coefficient of position ZZIndex(r, c), and the AC objects hold the decoded terms |
| Decoding.Decoder.DecodeUpperLeft | Lab_image_encoder_decoder/src/pdav/tudor/domain/Decoder.java:187-233 | positions 0..35 are the state machine's steps; the walk ends at cell (7, 0), or the block throws |
| Decoding.Decoder.DecodeLowerDiagonal | Lab_image_encoder_decoder/src/pdav/tudor/domain/Decoder.java:189-219 | the positions of one anti-diagonal are the state machine's steps, or the block throws |
| Decoding.Decoder.DecodeLowerRight | Lab_image_encoder_decoder/src/pdav/tudor/domain/Decoder.java:250-303 | positions 36..63 complete the walk: the grid and the objects are the final state, or the block throws |
| Decoding.Decoder.DecodeUpperDiagonal | Lab_image_encoder_decoder/src/pdav/tudor/domain/Decoder.java:259-285 | the positions of one diagonal of the second half are the state machine's steps, or the block throws |
| Decoding.Decoder.TurnLower | Lab_image_encoder_decoder/src/pdav/tudor/domain/Decoder.java:224-232 | the walk moves from the end of anti-diagonal d to the start of d + 1, and the direction flips |
| Decoding.Decoder.TurnUpper | Lab_image_encoder_decoder/src/pdav/tudor/domain/Decoder.java:287-302 | the walk moves from the end of diagonal diag to the start of diag - 1, and the direction flips |
| Decoding.Decoder.Visit | Lab_image_encoder_decoder/src/pdav/tudor/domain/Decoder.java:190-203 | one cell is the state machine's step: the DC amplitude at (0, 0), an AC step elsewhere; ok iff the lookup does not throw |
| Decoding.Decoder.VisitAC | Lab_image_encoder_decoder/src/pdav/tudor/domain/Decoder.java:193-203 | the AC step at one cell, as the state machine's Step |
| Decoding.Decoder.Write | Lab_image_encoder_decoder/src/pdav/tudor/domain/Decoder.java:201 | the grid holds the sequence with position k replaced |
| Decoding.Decoder.Decrement | Lab_image_encoder_decoder/src/pdav/tudor/domain/Decoder.java:196 | term i loses one from its run length, and the others stay |
| Decoding.Decoder.DecodeInto | Lab_image_encoder_decoder/src/pdav/tudor/domain/Decoder.java:310-314 | the block's grid becomes the decoded coefficients when the walk does not throw |
| Decoding.Decoder.DecodeRecord | Lab_image_encoder_decoder/src/pdav/tudor/domain/Decoder.java:308-316 | record index is decoded into its block (iff the block exists and the walk does not throw); no other block and no later record changes |
| Decoding.Decoder.EntropyDecoding | Lab_image_encoder_decoder/src/pdav/tudor/domain/Decoder.java:307-317 | ok iff every record has a block and decodes the terms its AC objects held on entry (Snapshot, taken for all records at once by the ghost Snapshots); then every block holds its record's decoded coefficients |
| Decoding.Decoder.ConvertBlocksToMatrices | Lab_image_encoder_decoder/src/pdav/tudor/domain/Decoder.java:39-76 | new height x width planes; ok iff the block grid fits the lists (Fits); then each plane is its blocks put back together, with zeros past the last whole block |
| Decoding.Decoder.CopyAll | Lab_image_encoder_decoder/src/pdav/tudor/domain/Decoder.java:53-75 | the while(true) loop: ok iff Fits; then every plane holds all hd*wd blocks |
| Decoding.Decoder.CopyBlocks | Lab_image_encoder_decoder/src/pdav/tudor/domain/Decoder.java:63-72 | block n of each list goes to its plane at its place |
| Decoding.Decoder.CopyBlock | Lab_image_encoder_decoder/src/pdav/tudor/domain/Decoder.java:66-72 | block n is copied into the plane at block row line and block column column, and nothing else changes |

## Left out

- File input and output are not modelled: `readPPMImage`, `writePPMImage` and `openFile`. The encoder's constructor takes the three planes instead of a file name, and the decoder's constructor drops the file name and the 0..255 pixel bounds.
- The floating-point stages are not modelled: `convertRGBtoYUV`, `convertYUVtoRGB`, `forwardDCT`, `inverseDCT` with `alpha` and `blockCosProduct`, `quantization` and `deQuantization`. Doubles are modelled as exact `real` values, so rounding is not modelled. The r, g and b fields are not modelled.
- `Main`, `Block.toString` and the encoder's getters are not modelled: they are wiring, text output and plain accessors.
- DC.java and Entropy.java are not part of this model. The records `DC` and `Entropy` take their shape from the calls the core makes on them: a size and an amplitude, and a DC term with a list of AC objects.
- Encoding.Encoder.CopyCut: the Y, U and V planes are integer arrays, so the `(int)` cast of a plane sample is the identity here (`TruncToIntOfInt`). The planes are the output of the colour conversion, which is not part of this model.
- `int` arithmetic is unbounded. The block index, the sizes and the amplitudes stay far from 32-bit wrap-around for any image the lists can hold.
- Decoding.Decoder.ConvertBlocksToMatrices: when ok is false, the planes' partial contents are not stated. The check for a missing block or a block past the plane's edge comes before the copy. In the Java code this check is the exception, raised at the lookup or at the first write out of bounds.
- Decoding.Decoder.EntropyDecoding: requires that no AC object is shared between records (`Separate`) and that no two blocks share a grid (`Unshared`). The encoder proves both for the lists it makes: `EntropyEncoding` ensures `Separate`, and `PartitionsUnshared` derives `Unshared` from what `StoreBlocks` ensures. Aliased inputs are not modelled.
- Decoding.Decoder.ZigZagMatrix: requires that no AC object occurs twice in the record (`Distinct`), for the same reason.
- AmplitudeMap.GetCorrespondingSize: the HashMap's iteration order is a parameter (`ForEachMatch` over an order). `LookupIgnoresOrder` shows the result does not depend on it.
- Several Java methods are split into helper methods along their loops, for example `CopyAll`, `CopyBlocks`, `DecodeRecord` and `ScanUpperLeft`. In the source each group is one method.
- The slot index of `forwardDCT`/`inverseDCT` is modelled as a function only (`BlockGrid.SlotIndex`). The transforms around it are floating point.

## Findings

| source | as written | input that shows it | evidently intended | confidence | as-written member | corrected member |
|---|---|---|---|---|---|---|
| Lab_image_encoder_decoder/src/pdav/tudor/domain/Decoder.java:197-199 | When a value term's run has been counted down to 0, the decoder moves the cursor on and clears the flag, but never writes the amplitude. | The block s = 0, 0, 5, 0, ..., 0 is coded as [(1, 3, 5), (61, 0, 0)] and decodes with 0 at position 2. | The amplitude goes at the position after its run of zeros, so decoding inverts encoding. | not executed | RunExpansion.DecodeLosesValueAfterZero | RunExpansion.DecodeEncodedIntended |
| Lab_image_encoder_decoder/src/pdav/tudor/domain/Encoder.java:204 | The slot is `line * width / 8 + column`, evaluated as (line * width) / 8 + column. | A plane 12 wide and 24 high has three blocks, at indices 0..2. Block (2, 0) gets slot 3, past the end of the list (`set` throws). | `line * (width / 8) + column`, the index `divideIntoBlocks` gives the block. | not executed | BlockGrid.SlotIndexPastEnd | BlockGrid.BlockIndexInverse |

Both halves of the first finding are in the model:

- The walk is parameterised by `Reading`. `AsWritten` follows the code, and `Intended` is the corrected decoder.
- `RunExpansion.DecodeEncodedAsWritten` and `RunExpansion.AsDecodedIsIdentityIff` say exactly which blocks the decoder as written gets back.
- The decoder's methods take the reading as a parameter.

For the second finding, the block lists of the model are indexed by `BlockGrid.BlockIndex`, whose inverse, injectivity and coverage are proved (`BlockIndexInverse`, `BlockIndexInjective`, `BlockIndexOnto`). `BlockGrid.SlotIndexCorrectIff` shows that the slot as written agrees with the block index exactly when the width is a multiple of 8. The same expression appears at Decoder.java:138.

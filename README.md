# ZXing.PngWriter in Dafny

A model of the PNG encoder of ZXing.PngWriter. The encoder turns a ZXing bit
matrix (a barcode) into a 1-bit greyscale PNG. It can print the barcode's
content under it in a small bitmap font, and it can embed tEXt, zTXt or iTXt
metadata chunks.

The model has five parts, one per C# file, plus two support modules:

- `extensions.dfy` (module `Extensions`, from `src/Extensions.cs`) covers the bit and byte transforms:
  - big-endian writes of `int`, `uint` and `long` to a stream;
  - the in-place big-endian patch `SetUInt`;
  - per-byte bit reversal;
  - complement of byte and int buffers;
  - 32-bit byte swap;
  - full 32-bit bit reversal of an int buffer.

  Every buffer operation is an imperative method over an `array`. Each runs the
  vector prefix the host supports (AVX2, SSE2 or none, the parameter `Simd`),
  modelled lane by lane, and then the scalar loop. Each is proved to give the
  scalar result whichever prefix ran.
- `png_image_writer.dfy` (module `ImageWriter`, from `src/PngImageWriter.cs`) holds the class `PngImageWriter`:
  - the signature, IHDR and text chunks written by its constructor;
  - `WriteLine` with filter None or Up, white padding and the blank-row counter;
  - `EnsureBlankScanLines`, which rewinds over trailing white rows and patches the height in IHDR;
  - `Finish`, which writes IDAT and IEND.

  Both streams are `MemoryStream` objects (module `Streams`): a write overwrites
  at the cursor, then extends. Moving the cursor back never truncates.
- `text_chunks.dfy` (module `TextChunks`, from `src/TextualInformation.cs`) covers:
  - the choice of chunk type;
  - the payload layout of each type;
  - the ordered list of chunks for the present fields.
- `caption.dfy` (module `Caption`, from `src/PngImageTextWriter.cs`) covers:
  - the glyph grid, built by nested loops over an abstract font map;
  - the 13 rows written for a caption.
- `renderer.dfy` (module `Renderer`, from `src/PngRenderer.cs`) models the five-argument `Render`.
  Its contract gives the whole PNG file as a function of the inputs (`RenderedPng`).
- The support modules:
  - `streams.dfy` holds bytes, `Option`, concatenation and the in-memory stream;
  - `strings.dfy` (module `Strings`) gives the UTF-16 code units a .NET string holds for a Dafny string, with a decoder that inverts it;
  - `collaborators.dfy` holds the CRC-32, zlib, Latin-1 and UTF-8 functions the code calls into.

These collaborators are parameters (`Codecs`). Nothing is assumed about them for all inputs.
Where a size matters, the bound is stated on the values the encoder actually passes them:
- `TextFits` bounds the text payloads;
- `BuffersFit`, and the precondition of `Finish`, bound the compressed rows.
Where a statement needs a CRC that can be computed piecewise, the statement says so (`Chainable`).
Integers of the C# code are bit patterns: `bv8` for `byte`, `bv32` for `int` and `uint`, `bv64` for `long`.
Sizes are `nat`. Any size that could overflow an `int` is kept in range by a precondition.
The caption counts and indexes UTF-16 code units, as .NET's `string.Length` and indexer do, so a character outside the Basic Multilingual Plane takes two glyph cells (`Strings.Utf16`).

### Where the code and the standard or its own comments differ

The model follows the code in each of these cases:

- **Scanlines can be wider than the image.** Section 7.2 of the PNG specification (second edition) makes each scanline exactly the image width, and section 7.3 puts one filter-type byte before it.
  - The renderer passes the whole word array of a matrix row as bytes, a multiple of 4 bytes (`src/Extensions.cs:86`; the slice is commented out).
  - `WriteLine` writes no padding when the row is longer than `widthInBytes`, and it writes the whole row.
  - So a None record is `1 + max(widthInBytes, |row|)` bytes long, and an Up record is always `1 + widthInBytes`.
  - `ImageWriter.RecordLayout` states both cases. `Renderer.RowsMatchDeclaredHeight` gives the condition under which the filtered rows have the length the declared height implies.
- **The IHDR CRC is not updated.** Section 5.3 of the PNG specification (second edition) has every chunk's CRC cover its type and data.
  - `UpdateHeight` rewrites the height bytes of IHDR but leaves the CRC after them as it was.
  - `ImageWriter.PatchedHeaderKeepsOldCrc` states that the patched header carries the CRC of the old height's data. That CRC matches the new data only when the CRC cannot tell the two apart.
- **The blank-row counter is never lowered.** The doc comment of `Write` promises to "write over white space if available" (`src/PngImageTextWriter.cs:33`), that is, `EnsureBlankScanLines` never rewinds more rows than are blank.
  - That holds for one call.
  - The counter is not lowered by a rewind, so a second call without a write in between can rewind over non-white records again.
  - That second call can also move the cursor before the start, which .NET refuses. `EnsureBlankScanLines` models this as the `NegativePosition` failure, after the height and row count have already changed.
- **A null content is the empty string.** `IncludeText` treats it that way, as `string.IsNullOrEmpty` does.
- **A missing `EncodingOptions` is `None`.** Without options there is no caption.

## Model

| member | source | states |
|---|---|---|
| Streams.Overwrite | src/PngImageWriter.cs:74-86 | a stream write keeps the bytes before the cursor, puts the new bytes at the cursor, and keeps the old bytes after them when it does not reach the end, extending the buffer otherwise |
| Streams.OverwriteConsecutive | src/PngImageWriter.cs:81-86 | two writes one after the other are one write of the two byte strings together |
| Streams.MemoryStream.Write | src/PngImageWriter.cs:74-86 | overwrites at the cursor, then extends, and advances the cursor by the bytes written; at the end of the buffer it appends |
| Streams.MemoryStream.SetPosition | src/PngImageWriter.cs:101 | moving the cursor never changes the buffer; a negative position is refused and leaves the cursor where it was |
| Strings.Utf16 | src/PngImageTextWriter.cs:29 | a string has at least as many UTF-16 code units as characters, and none exactly when it is empty |
| Strings.Utf16RoundTrip | src/PngImageTextWriter.cs:41-44 | decoding the code units gives the string back, so the cells the caption indexes are exactly the text |
| Strings.BasicPlaneUnits | src/PngImageTextWriter.cs:41-44 | a text of characters below U+10000 has one code unit per character, each holding the character's value |
| Strings.SurrogatePairExample | src/PngImageTextWriter.cs:29 | "A", U+1F600, "B" is four code units, the emoji a surrogate pair |
| Extensions.LittleEndian32RoundTrip | src/Extensions.cs:36 | the memory layout of a 32-bit value on a little-endian host and the value read back from it are inverse to each other |
| Extensions.BigEndian32RoundTrip | src/Extensions.cs:33-53 | big-endian encoding of a 32-bit value and decoding are inverse to each other, in both directions |
| Extensions.ByteSwap32 | src/Extensions.cs:35 | `ReverseEndianness` puts the four bytes of a value's memory in the opposite order |
| Extensions.ByteSwap32Involution | src/Extensions.cs:35 | swapping the bytes twice gives the value back |
| Extensions.SwappedLayoutIsBigEndian32 | src/Extensions.cs:35-37 | the memory of a byte-swapped value on a little-endian host is the value most significant byte first |
| Extensions.BigEndian64RoundTrip | src/Extensions.cs:55-68 | the 8-byte big-endian encoding of a `long` decodes back to it |
| Extensions.SwappedLayoutIsBigEndian64 | src/Extensions.cs:57-59 | the memory of a byte-swapped `long` is its eight bytes most significant first |
| Extensions.BigEndianOfOne | ZXing.PngWriter_Tests/Extensions_Tests.cs:20-55 | writing 1 as `int` or `uint` gives 00 00 00 01, and as `long` gives seven zero bytes then 01 |
| Extensions.WriteInt | src/Extensions.cs:33-42 | appends (at the end of the stream) or overwrites exactly four bytes, the value's two's complement most significant first, and advances the cursor by 4 |
| Extensions.WriteUInt | src/Extensions.cs:44-53 | the same for an unsigned value |
| Extensions.WriteLong | src/Extensions.cs:55-68 | eight bytes, most significant first, cursor advanced by 8 |
| Extensions.PatchBigEndian32 | src/Extensions.cs:70-75 | the patched buffer has the same length, the big-endian value at `[p, p+4)`, and every other byte unchanged |
| Extensions.SetUInt | src/Extensions.cs:70-75 | needs four bytes at `position`; the array afterwards is the buffer patched there with the value big-endian |
| Extensions.PatchExample | ZXing.PngWriter_Tests/Extensions_Tests.cs:58-64 | 0x01020304 patched at offset 1 of six zero bytes gives 0, 1, 2, 3, 4, 0 |
| Extensions.ReverseBitsOf | src/Extensions.cs:78-84 | bit `i` of the result is bit `7 - i` of the input, for every `i` |
| Extensions.ReverseBitsOfInvolution | src/Extensions.cs:78-84 | reversing the bits of a byte twice gives it back |
| Extensions.ReverseBitsByRef | src/Extensions.cs:77-84 | the three swap steps (nibbles, pairs, bits) compute the bit-reversed byte |
| Extensions.ReverseBitsExamples | ZXing.PngWriter_Tests/Extensions_Tests.cs:68-80 | 1 becomes 128 and 64 becomes 2 |
| Extensions.ThreeStepsReverseByte | src/Extensions.cs:80-82 | the nibble, pair and bit swaps together reverse a byte |
| Extensions.ReverseEachInvolution | src/Extensions.cs:234-259 | reversing every byte of a buffer twice gives it back |
| Extensions.WordsToBytesSlice | src/Extensions.cs:86 | bytes `4j..4j+4` of the byte view are the little-endian memory of word `j` |
| Extensions.WordsBytesRoundTrip | src/Extensions.cs:86 | reading the byte view back as words gives the words |
| Extensions.WordsToBytesExample | ZXing.PngWriter_Tests/Extensions_Tests.cs:84-93 | the view of a one-word row with bits 1, 0, 1 is the four bytes 5, 0, 0, 0 |
| Extensions.GetBytes | src/Extensions.cs:86 | the view is four bytes per word, each word's memory in order |
| Extensions.ComplementInvolution | src/Extensions.cs:88-156 | complementing a byte or int buffer twice gives it back |
| Extensions.AndNotAllOnesIsComplement | src/Extensions.cs:99 | one vector lane of `AndNot(x, all ones)` is the complement the scalar loop computes, for bytes and for ints |
| Extensions.AndNotVector8 | src/Extensions.cs:96-101 | one AVX2/SSE2 step complements exactly the `lanes` bytes at `start` and keeps every other byte |
| Extensions.AndNotVector32 | src/Extensions.cs:131-137 | one step complements exactly the `lanes` words at `start` and keeps the rest |
| Extensions.NegateByteVectors | src/Extensions.cs:91-116 | the vector loop complements the first `bytesNegated` bytes, keeps the rest, and leaves fewer than one vector's worth |
| Extensions.NegateByteTail | src/Extensions.cs:117-120 | the scalar loop complements every byte from `from` on and keeps those before it |
| Extensions.NegateBytes | src/Extensions.cs:88-121 | the buffer ends up complemented byte by byte, whichever vector prefix ran |
| Extensions.NegateIntVectors | src/Extensions.cs:126-151 | the vector loop complements a prefix of whole vectors, leaving fewer than `lanes` words, and keeps the rest |
| Extensions.NegateIntTail | src/Extensions.cs:152-155 | the scalar loop complements the words from `from` on |
| Extensions.NegateWords | src/Extensions.cs:125-155 | the vector loop, then the scalar loop, complement the whole buffer |
| Extensions.NegateInts | src/Extensions.cs:123-156 | fails exactly when a vector path takes the address of element 0 of an empty span (span left unchanged); otherwise every word is complemented |
| Extensions.ComplementExamples | ZXing.PngWriter_Tests/Extensions_Tests.cs:97-111 | bytes 1, 128 become 254, 127, and ints 1, int.MinValue, 2 become -2, int.MaxValue, -3 |
| Extensions.AlignDown | src/Extensions.cs:212 | `n & ~7` (and `n & ~31`) is the largest multiple of 8 (of 32) not above `n` |
| Extensions.ByteSwapWordsInvolution | src/Extensions.cs:204-225 | byte-swapping every word twice gives the buffer back |
| Extensions.EndiannessMaskSelectsMirrorByte | src/Extensions.cs:203 | every control byte of the mask selects, within its own 16-byte half, byte `4w + 3 - t` for output byte `4w + t` |
| Extensions.EndiannessMaskIsMirror | src/Extensions.cs:203 | entry `j` of the mask is `j` mirrored within its group of four |
| Extensions.ShuffleByte | src/Extensions.cs:215 | byte `j` of the shuffled vector is the mirrored byte of its word |
| Extensions.MirroredBytesAreByteSwap | src/Extensions.cs:215 | a word's bytes read in the opposite order are its byte swap |
| Extensions.ShuffleMirrorsByte | src/Extensions.cs:215 | byte `t` of word `w` after the shuffle is byte `3 - t` of word `w` before it |
| Extensions.ShuffleMirrorsWord | src/Extensions.cs:215 | the shuffle reverses the four bytes of each word |
| Extensions.ShuffleSwapsEachWord | src/Extensions.cs:215 | the AVX2 shuffle of eight words byte-swaps each of them, like the scalar loop |
| Extensions.ShuffleVector | src/Extensions.cs:213-217 | one vector step byte-swaps exactly the eight words at `start` and keeps every other word |
| Extensions.ReverseEndianness | src/Extensions.cs:204-225 | every word is byte-swapped, whether or not the AVX2 prefix ran |
| Extensions.LaneStepsStayInsideBytes | src/Extensions.cs:227-232 | each 16-bit masked swap step acts on the two bytes of a lane separately, as the byte step would |
| Extensions.LaneMasksStayInsideBytes | src/Extensions.cs:245-248 | the three vector steps on a 16-bit lane bit-reverse each of its two bytes |
| Extensions.ReverseBitsVectorPerByte | src/Extensions.cs:243-250 | one AVX2 block reverses the bits of each of its 32 bytes, like the scalar loop |
| Extensions.ReverseBitsVectors | src/Extensions.cs:238-252 | the AVX2 loop bit-reverses each of the first `Length & ~31` bytes and keeps the rest |
| Extensions.ReverseBitsTail | src/Extensions.cs:254-258 | the scalar loop bit-reverses each byte from `from` on and keeps those before it |
| Extensions.ReverseBitsBytes | src/Extensions.cs:234-259 | every byte is bit-reversed, whether or not the AVX2 prefix ran |
| Extensions.ReverseWordBitsReversesAllBits | src/Extensions.cs:158-201 | byte swap followed by per-byte reversal of the memory reverses all 32 bits: bit `i` of the result is bit `31 - i` of the word |
| Extensions.ReverseWordBitsExamples | ZXing.PngWriter_Tests/Extensions_Tests.cs:115-120 | 1 becomes int.MinValue, int.MinValue + 2 becomes 0x40000001, and 0 stays 0 |
| Extensions.ReversedViewWord | src/Extensions.cs:197-200 | word `j` read back from the bit-reversed byte view is the word's memory bytes, each reversed |
| Extensions.ReverseBitsInts | src/Extensions.cs:158-201 | every word of the buffer has all 32 bits reversed |
| TextChunks.GetTypeBytes | src/TextualInformation.cs:120-125 | iTXt exactly when UTF-8 is set (whatever Compress says), zTXt exactly when only Compress is set, tEXt otherwise |
| TextChunks.CopyTo | src/TextualInformation.cs:148-149 | `src` lands at `offset` and every other byte of the buffer is kept |
| TextChunks.GettEXtData | src/TextualInformation.cs:134-151 | the payload is the keyword, one zero byte, then the text, all Latin-1 |
| TextChunks.GetzTXtData | src/TextualInformation.cs:163-181 | the payload is the keyword, a zero separator, method byte 0, then the zlib-compressed Latin-1 text |
| TextChunks.GetiTXtData | src/TextualInformation.cs:183-203 | the payload is the keyword, a zero, the compression flag (1 if compressed), method 0, two zeros for the empty language tag and translated keyword, then the UTF-8 text, compressed exactly when the flag is set |
| TextChunks.TypeMatchesPayload | src/TextualInformation.cs:120-132 | `GetDataBytes` chooses with the same precedence as `GetTypeBytes`: each chunk type carries its own payload layout |
| TextChunks.KeywordIsPrefix | src/TextualInformation.cs:148 | in every layout the payload starts with the keyword and the zero after it |
| TextChunks.PayloadLength | src/TextualInformation.cs:127-132 | the payload `GetDataBytes` returns is as long as the array its layout allocates: the keyword, then 1 (tEXt), 2 (zTXt) or 5 (iTXt) framing bytes, then the stored text |
| TextChunks.TypeAndDataReadBack | src/TextualInformation.cs:205-210 | the block `GetTypeAndData` pairs up has a text chunk type, and a reader splitting its payload at the first zero finds the property name, then the rest of the layout that type names |
| TextChunks.GetDataBlocksFollowsDeclaredOrder | src/TextualInformation.cs:89-101 | the blocks are those of a walk through Title, Author, Description, Copyright, CreationTime, Software, Disclaimer, Warning, Source, Comment, in that order, each present field keyed by its property name |
| TextChunks.EntriesInOrder | src/TextualInformation.cs:89-101 | the walk visits the ten fields in declared order, each with its property name as keyword |
| TextChunks.BlocksOfEntriesCount | src/TextualInformation.cs:89-101 | the walk yields exactly one block per present field, and each block's type is tEXt, zTXt or iTXt |
| TextChunks.BlocksOfEntriesIndex | src/TextualInformation.cs:89-101 | present entry `j` yields the block at index "present entries before `j`", and there are no other blocks |
| TextChunks.CountPresentIncreasing | src/TextualInformation.cs:89-101 | a present entry's block comes before the blocks of all later entries |
| TextChunks.GetDataBlocksIndex | src/TextualInformation.cs:89-101 | `GetDataBlocks` has one block per present field and no other. Each block is that field's type and payload, keyed by its property name, and a field declared earlier has its block earlier |
| TextChunks.SplitAtNull | src/TextualInformation.cs:140 | a reader's split at the first zero: a prefix with no zero, the zero, and the rest |
| TextChunks.SplitAtNullOfPrefix | src/TextualInformation.cs:148-149 | splitting a zero-free prefix, a zero and a rest gives the prefix and the rest back |
| TextChunks.TextPayloadRoundTrip | src/TextualInformation.cs:134-151 | a reader splitting a tEXt payload at its first zero gets the keyword and the text back |
| TextChunks.CompressedPayloadRoundTrip | src/TextualInformation.cs:163-181 | the same for zTXt: the keyword, then method 0 and the compressed text |
| TextChunks.InternationalPayloadRoundTrip | src/TextualInformation.cs:183-203 | the same for iTXt: the keyword, then the flag, method, both empty strings and the text |
| ImageWriter.SmallCapacityFits | src/PngImageWriter.cs:42 | a row-buffer capacity `(widthInBytes + 1) * height` that fits an `int` is its own 32-bit value, so `new MemoryStream` accepts it |
| ImageWriter.ChunkCrcCoversTypeAndData | src/PngImageWriter.cs:230-232 | with a CRC computed piecewise, the CRC over the type continued over the data (when there is data) is the CRC of type and data together |
| ImageWriter.Chunk | src/PngImageWriter.cs:214-234 | a chunk is 12 bytes longer than its data |
| ImageWriter.ChunkFields | src/PngImageWriter.cs:214-234 | a reader finds the data length in bytes 0-3, the type in 4-7, the data, and the CRC over type and data in the last four bytes |
| ImageWriter.IhdrData | src/PngImageWriter.cs:183-199 | IHDR data is 13 bytes: width, height, bit depth 1, colour type 0, compression, filter and interlace 0 |
| ImageWriter.Header | src/PngImageWriter.cs:32-33 | the signature and the IHDR chunk take 33 bytes |
| ImageWriter.HeaderFields | src/PngImageWriter.cs:147-201 | the header is the signature, IHDR length 13, type IHDR, width at offset 16, height at offset 20 (`_heightPosition`), then 1, 0, 0, 0, 0 |
| ImageWriter.HeightFieldKept | src/PngImageWriter.cs:181 | whatever follows the header, the height sits at offset 20 |
| ImageWriter.PatchedHeaderKeepsOldCrc | src/PngImageWriter.cs:131-143 | after the height patch the header is the new height's IHDR up to the CRC, whose field still holds the old CRC; it is right for the new data exactly when the two CRCs coincide |
| ImageWriter.PatchedHeaderLayout | src/PngImageWriter.cs:140-141 | the patched header is the new height's IHDR fields followed by the old height's CRC |
| ImageWriter.RecordLayout | src/PngImageWriter.cs:69-89 | an Up record is byte 2 and `widthInBytes` zeros. A None record is byte 0, then the row centred in 0xFF with the odd byte on the right, or the whole row when it is wider. The length is `1 + widthInBytes`, or `1 + |row|` for a wider row written with None |
| ImageWriter.NoneRecordLayout | src/PngImageWriter.cs:78-86 | a row with no previous row becomes byte 0, its left padding, the row and its right padding |
| ImageWriter.RewindCount | src/PngImageWriter.cs:97 | the rows taken back are at most `n`, at most the blank rows when there are any, and none otherwise |
| ImageWriter.WriteUpRecord | src/PngImageWriter.cs:74-75 | writes byte 2 and the zero row at the cursor |
| ImageWriter.WritePadding | src/PngImageWriter.cs:82-86 | continues the record with the margin's 0xFF bytes, none for a margin that is not positive |
| ImageWriter.WriteNoneRecord | src/PngImageWriter.cs:69-86 | writes the None record of the row at the cursor |
| ImageWriter.PngImageWriter.constructor | src/PngImageWriter.cs:27-47 | needs every text payload to fit an array (`TextFits`) and the capacity `(widthInBytes + 1) * height`, wrapped to 32 bits as C# computes it, not to be negative (`CapacityFits`); the source throws otherwise. Then the stream holds the signature, IHDR for the given size and the text chunks, with the cursor at its end. The row buffer is empty, `widthInBytes` is `(width + 7) >> 3`, nothing is written yet and the blank counter is -1 |
| ImageWriter.PngImageWriter.WriteHeaders | src/PngImageWriter.cs:32-41 | the stream holds the header and the text chunks, and the height field sits at `heightPosition` = 20 |
| ImageWriter.PngImageWriter.WriteTextChunks | src/PngImageWriter.cs:35-41 | appends the chunks of the present fields, or nothing without textual information |
| ImageWriter.PngImageWriter.WriteBlocks | src/PngImageWriter.cs:37-40 | appends one chunk per block, in order |
| ImageWriter.PngImageWriter.WritePngHeader | src/PngImageWriter.cs:147-151 | appends the eight signature bytes |
| ImageWriter.PngImageWriter.WriteChunk | src/PngImageWriter.cs:212-234 | appends the chunk: big-endian length, type, data, big-endian CRC |
| ImageWriter.PngImageWriter.WriteHdr | src/PngImageWriter.cs:153-202 | notes the height position 12 bytes past the cursor and appends the IHDR chunk |
| ImageWriter.PngImageWriter.WriteEnd | src/PngImageWriter.cs:208-212 | appends IEND with no data |
| ImageWriter.PngImageWriter.UpdateHeight | src/PngImageWriter.cs:131-143 | changes only the four height bytes (not the CRC), to the new height big-endian, and keeps the cursor where it was |
| ImageWriter.PngImageWriter.WriteLine | src/PngImageWriter.cs:64-91 | fails after `Finish` or once `height` rows are written, changing nothing; otherwise writes the row's record at the cursor, counts the row and updates the blank counter (Up: raised only when positive; None: 1 for a white row, else 0) |
| ImageWriter.PngImageWriter.WriteLineWithoutPrevious | src/PngImageWriter.cs:62 | a row with no previous row is never written with Up |
| ImageWriter.PngImageWriter.WriteBlankLine | src/PngImageWriter.cs:60 | a white row: byte 0 and `widthInBytes` 0xFF bytes, blank counter 1 |
| ImageWriter.PngImageWriter.EnsureBlankScanLines | src/PngImageWriter.cs:93-102 | takes back `k = RewindCount(blankLines, n)` rows. The height grows by `n - k` and is patched into IHDR, and the row count drops by `k`, so `height - linesWritten` grows by exactly `n`. The cursor moves back `k` records without truncating, or fails if that would pass the start. The blank counter is unchanged |
| ImageWriter.PngImageWriter.Finish | src/PngImageWriter.cs:104-124 | fails after a previous `Finish` or with rows missing. Otherwise it needs the compressed rows to fit a `MemoryStream`, appends IDAT with the compressed row buffer and IEND, drops the row buffer (so later calls fail) and rewinds the stream |
| Caption.GetRequiredWidth | src/PngImageTextWriter.cs:29 | eight pixels per UTF-16 code unit (`text.Length`), so the image has exactly one byte per code unit |
| Caption.RequiredWidthExample | src/PngImageTextWriter.cs:29 | "A", U+1F600, "B" needs 32 pixels, the emoji's surrogate pair taking two cells |
| Caption.CellIndex | src/PngImageTextWriter.cs:50 | cell (y, c) of the grid is at `y * len + c`, inside the grid, and y and c can be recovered from it |
| Caption.GlyphGrid | src/PngImageTextWriter.cs:41-53 | the grid has `11 * |text|` bytes and row `y` is pixel row `y` of the caption: each code unit's glyph row, or white for a code unit missing from the font |
| Caption.DrawGlyph | src/PngImageTextWriter.cs:46-52 | the inner loop draws all 11 rows of code unit `c` |
| Caption.DrawnStep | src/PngImageTextWriter.cs:50 | one assignment extends the drawn part of the grid by cell (y, c) |
| Caption.DrawnNextColumn | src/PngImageTextWriter.cs:44-53 | after a code unit's glyph, or none when the font lacks it, the next column starts |
| Caption.DrawnGridRows | src/PngImageTextWriter.cs:54-57 | the slices `Write` passes are the caption's pixel rows |
| Caption.BlankRecordIsWhiteRow | src/PngImageTextWriter.cs:40 | the white row written with no previous row is byte 0 and `widthInBytes` 0xFF bytes |
| Caption.CaptionRecordList | src/PngImageTextWriter.cs:39-58 | the caption leaves exactly 13 records: a white row, the 11 glyph rows, a white row |
| Caption.CaptionRecordsShape | src/PngImageTextWriter.cs:39-58 | every caption record uses filter 0 and is at least a scanline long; with a byte per code unit each is exactly one scanline, 13 in all |
| Caption.Write | src/PngImageTextWriter.cs:37-59 | reserves 13 rows (taking back trailing white rows), then writes a white row, the 11 glyph rows of the text's UTF-16 code units and a white row over them, so `height - linesWritten` is unchanged and `Finish` can follow; a failed rewind stops it |
| Caption.WriteCaptionRows | src/PngImageTextWriter.cs:40-58 | the 13 records are written at the cursor, in order, and the blank counter ends at 1 |
| Caption.WriteGlyphRows | src/PngImageTextWriter.cs:54-57 | records 1 to 11 are written, each after the one before |
| Caption.WriteGlyphRow | src/PngImageTextWriter.cs:56 | glyph row `y`, a slice of the grid, becomes caption record `1 + y` |
| Caption.CaptionRecordAt | src/PngImageTextWriter.cs:56 | record `1 + y` of the caption is glyph row `y` with filter 0 |
| Caption.GlyphRowOfGrid | src/PngImageTextWriter.cs:56 | the slice `textLen * i` of length `textLen` lies inside the grid and is glyph row `i` |
| Caption.WriteRowAfter | src/PngImageTextWriter.cs:56 | one row written with no previous row continues the caption records |
| Renderer.OutputWidth | src/PngRenderer.cs:64-70 | the width is the matrix width, widened to eight pixels per UTF-16 code unit only when the caption is included, which is when the content is not empty, options are given and they do not ask for the bare barcode (`IncludeText`) |
| Renderer.ScanLine | src/PngRenderer.cs:75-78 | a row's scanline is four bytes per word |
| Renderer.ScanLinePixel | src/PngRenderer.cs:75-78 | pixel `i` (from the left) of byte `4w + k` is black exactly when module `32w + 8k + i` is dark |
| Renderer.ScanLineByte | src/PngRenderer.cs:76-78 | byte `4w + k` of the scanline is byte `k` of the complemented word `w`, bit-reversed |
| Renderer.ComplementedByteBit | src/PngRenderer.cs:76-77 | bit `i` of byte `k` of a complemented word is the complement of bit `8k + i` of the word |
| Renderer.TransformRow | src/PngRenderer.cs:75-78 | fails exactly for an empty row on a vector host; otherwise gives the scanline of the row |
| Renderer.BlankRun | src/PngRenderer.cs:73-81 | the blank counter after `n` rows is between -1 and `n` |
| Renderer.BlankRunIsWhite | src/PngImageWriter.cs:76-88 | the counter `WriteLine` keeps (`NextBlankLines`: raised after an Up row when positive, 1 after a white None row, else 0) counts only white rows at the bottom |
| Renderer.WhiteRecordLength | src/PngImageWriter.cs:69-89 | a white row's record is one scanline long, whichever filter it gets |
| Renderer.RewoundRowsAreWhite | src/PngImageTextWriter.cs:39 | the rows the caption takes back are white, so each record is one scanline long |
| Renderer.RewoundPrefix | src/PngImageWriter.cs:101 | moving the cursor back over the rows taken back lands inside the buffer, right after the records of the rows kept |
| Renderer.CaptionReplacesWhiteRows | src/PngRenderer.cs:82-85 | the caption written at the rewound cursor replaces exactly the rows taken back |
| Renderer.CaptionCoversRewind | src/PngImageTextWriter.cs:39-58 | the caption is at least as long as what it takes back, so no stale byte remains after it |
| Renderer.CaptionRewind | src/PngImageTextWriter.cs:39 | at most 13 rows, and no more than the barcode has, are taken back |
| Renderer.RowsMatchDeclaredHeight | src/PngRenderer.cs:72-86 | when the scanlines and caption fit the width, the filtered rows `Finish` compresses are exactly `height * (widthInBytes + 1)` bytes, the length a decoder expects after inflating |
| Renderer.WriteMatrixRows | src/PngRenderer.cs:72-81 | exactly `matrix.Height` rows are written, each against the previous one (none for the first); fails only on a vector host with an empty matrix row |
| Renderer.WriteMatrixRow | src/PngRenderer.cs:75-80 | one turn transforms row `y`, writes it against the previous row and makes it the previous row |
| Renderer.AddCaption | src/PngRenderer.cs:82-85 | the rows end up as the barcode's rows with the caption over its white bottom rows, and the height in IHDR is patched to match |
| Renderer.RenderSizesFit | src/PngRenderer.cs:65-71 | within the size limits the widened width plus seven fits an `int`; with a caption, so do the text width in bits, the glyph grid, the height with caption and the caption bytes |
| Renderer.RowsAtLeastCapacity | src/PngRenderer.cs:72-86 | the row buffer holds at least one scanline per matrix row, because the caption adds at least as many scanlines as it takes back |
| Renderer.RenderCapacityFits | src/PngRenderer.cs:71 | when the rows fit a `MemoryStream`, the capacity the writer asks for is a valid one |
| Renderer.RenderedPngIs | src/PngRenderer.cs:62-88 | the file `Render` assembles is `RenderedPng` |
| Renderer.CompleteImage | src/PngRenderer.cs:82-87 | the returned bytes are the header, patched when there is a caption, then IDAT of the compressed rows, then IEND |
| Renderer.Render | src/PngRenderer.cs:62-88 | for payloads, rows and compressed rows that fit an `int`, and a matrix within `WithinLimits` (width plus seven within an `int`; the caption sizes bounded only when a caption is drawn), the result is `RenderedPng`: the header of the widened width and the matrix height (patched for the caption), the text chunks, IDAT and IEND; an empty row on a vector host gives the out-of-range failure |

## Left out

- Vector instructions are not executed. The host's capability is the parameter `Simd`. Each instruction (`AndNot`, the byte shuffle, the 16-bit masked shifts) is modelled by its effect on each lane. Pointers and `fixed` blocks are array indices.
- The host is little-endian. The branch taken when `BitConverter.IsLittleEndian` is false is not modelled.
- CRC-32 (Soft160), zlib compression (Ionic.Zlib) and the Latin-1 and UTF-8 encoders are function parameters (`Codecs`). Their algorithms are not part of this model.
- Ionic.Zlib, Soft160 and ZXing's `BitMatrix`, `BitArray` and `BarcodeWriter` are not part of this model. A matrix is given as rows of 32-bit words, `(width + 31) / 32` words per row.
- `src/PngWriter.cs` is not part of this model. Neither are the three- and four-argument `Render` overloads, which only pass defaults to the five-argument one.
- `TextData.GetTypeAndData` recovers the keyword from a property expression by reflection. Here the keyword is passed in as the field's name.
- The glyph table's byte values are not part of this model. The font is an abstract map from UTF-16 code units, required to hold 11 bytes per entry.
- `Dispose` and the stream's `Length` versus `GetBuffer` are left out. They do not change any byte written.
- The row buffer's initial capacity is modelled only as the constructor's condition that it not be negative (`CapacityFits`). When that condition holds, the capacity does not change any byte written.
- Extensions.GetBytes, Extensions.ReverseBitsInts: the byte view aliases the words' memory in the source. The model copies it out and back, so aliasing itself is not modelled.
- ImageWriter.PngImageWriter.UpdateHeight: the "height not set" check cannot fail once the constructor has run, because `heightPosition` is 20 from then on. The check is not modelled.
- ImageWriter.PngImageWriter.constructor, ImageWriter.PngImageWriter.UpdateHeight, ImageWriter.PngImageWriter.EnsureBlankScanLines, Caption.Write, Caption.GetRequiredWidth: these require sizes for which the C# `int` arithmetic does not overflow. Those sizes are the height after adding the caption, `(widthInBytes + 1) * n` for the rewind, and `11 * textLen` for the grid. `Render` meets these limits under `WithinLimits` (`RenderSizesFit`). `GetRequiredWidth` computes `text.Length << 3`, which wraps for 2^28 code units or more; the model's width is unbounded. `Render` calls it only when a caption is drawn, and `WithinLimits` then keeps the text well below 2^28 code units. The model does not describe what the C# code does on 32-bit overflow for larger sizes.
- Streams.MemoryStream.Write: a .NET `MemoryStream` throws once it would grow past 2^31 - 1 bytes; the model's stream has no such limit. `Render` requires the row buffer and its compressed form to stay within it (`BuffersFit`), and `Finish` requires it of the compressed rows. The output stream's own limit, reached only when the text chunks and IDAT together pass 2 GiB, is not modelled.
- Caption.Write: the source puts the glyph grid (`11 * textLen` bytes) on the stack with `stackalloc`. On a 1 MiB stack that overflows at about 95 000 code units, a limit set by the host and not by the code. The model treats the grid as an ordinary array.
- TextChunks.GettEXtData, TextChunks.GetzTXtData, TextChunks.GetiTXtData: a payload too large for a .NET array makes `new byte[...]` throw. The constructor requires every payload to fit (`TextFits`) rather than modelling that exception.
- Exceptions raised inside the collaborators are not modelled.
- Renderer.Render: the content is a Dafny string of Unicode scalar values, so a .NET string holding an unpaired surrogate is not representable. The source draws such a code unit as a white cell, because the font has no glyph for it. `Render` also requires `WithinLimits`: the matrix width plus seven and the matrix height fit an `int` and, only when a caption is drawn, the glyph grid, the height with caption and the caption bytes fit one too. Larger inputs overflow the C# `int` arithmetic, which is not modelled.

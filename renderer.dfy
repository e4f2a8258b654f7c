/**
 * The barcode renderer of src/PngRenderer.cs: turns a ZXing bit matrix into
 * a 1-bit grey PNG, optionally with the encoded content printed underneath.
 *
 * Each matrix row is a run of 32-bit words whose bit `x % 32` of word
 * `x / 32` is module `x` (set = dark). The renderer complements the words,
 * looks at them as little-endian bytes and reverses the bits of each byte,
 * so that pixel `x` lands most significant bit first in byte `x / 8` with 0
 * for black, which is what a 1-bit grey PNG wants.
 */
module Renderer {
  import opened Streams
  import opened Collaborators
  import opened Extensions
  import opened TextChunks
  import opened ImageWriter
  import opened Caption
  import opened Strings

  /** The one encoding option the renderer reads. */
  datatype EncodingOptions = EncodingOptions(pureBarcode: bool)

  /** A ZXing bit matrix, row by row, each row `(width + 31) / 32` words long. */
  datatype BitMatrix = BitMatrix(width: nat, height: nat, rows: seq<seq<bv32>>)

  predicate WellFormedMatrix(matrix: BitMatrix)
  {
    && |matrix.rows| == matrix.height
    && forall y :: 0 <= y < |matrix.rows| ==> |matrix.rows[y]| == (matrix.width + 31) / 32
  }

  /**
   * The sizes for which none of the 32-bit quantities involved overflows:
   * `width + 7` for the bytes of a row, and, only when the caption is
   * included, the text's width in bits and its glyph grid (counted in UTF-16
   * code units), the height with the caption's 13 rows, and the bytes of 13
   * scanlines.
   */
  predicate WithinLimits(matrix: BitMatrix, content: string, options: Option<EncodingOptions>)
  {
    && matrix.width <= MaxSpan - 7
    && matrix.height <= MaxSpan
    && (IncludeText(content, options) ==>
         && GlyphHeight * |Utf16(content)| <= MaxSpan
         && matrix.height + CaptionHeight <= MaxSpan
         && (WidthInBytes(OutputWidth(matrix.width, content, true)) + 1) * CaptionHeight <= MaxSpan)
  }

  /** What `Render` returns: the PNG file, or the exception a vectorised negation of an empty row throws. */
  datatype Rendered = Png(bytes: seq<byte>) | IndexOutOfRange

  // ---------------------------------------------------------------------
  // Width and caption decision

  /**
   * The text goes under the barcode when there is some, options were given
   * and they do not ask for the bare barcode (a null string is the empty one).
   */
  predicate IncludeText(content: string, options: Option<EncodingOptions>)
  {
    |content| > 0 && options.Some? && !options.value.pureBarcode
  }

  /** The image width: the matrix width, widened to the caption's when the caption is included. */
  function OutputWidth(matrixWidth: nat, content: string, includeText: bool): (w: nat)
    ensures w >= matrixWidth
    ensures includeText ==> w >= 8 * |Utf16(content)|
    ensures w == matrixWidth || (includeText && w == 8 * |Utf16(content)|)
  {
    if includeText && matrixWidth < GetRequiredWidth(content) then GetRequiredWidth(content) else matrixWidth
  }

  // ---------------------------------------------------------------------
  // Rows

  /** The scanline of a matrix row: complemented, seen as little-endian bytes, each byte bit-reversed. */
  function ScanLine(row: seq<bv32>): (r: seq<byte>)
    ensures |r| == 4 * |row|
  {
    ReverseEach(WordsToBytes(ComplementWords(row)))
  }

  /** The byte offset `k` in a word as a bit offset. */
  function ByteShift(k: nat): bv32
    requires k < 4
  {
    if k == 0 then 0 else if k == 1 then 8 else if k == 2 then 16 else 24
  }

  /**
   * A dark module becomes a black (0) pixel in the same place: bit `7 - i`
   * (counting from the least significant, so pixel `i` from the left) of
   * byte `4 * w + k` of the scanline is set exactly when module
   * `32 * w + 8 * k + i` of the row is not.
   */
  lemma {:induction false} ScanLinePixel(row: seq<bv32>, w: nat, k: nat, i: bv8)
    requires w < |row| && k < 4 && i < 8
    ensures BitOf8(ScanLine(row)[4 * w + k], 7 - i) == !BitOf32(row[w], ByteShift(k) + i as bv32)
  {
    var b := LittleEndian32(!row[w])[k];
    ScanLineByte(row, w, k);
    ReversedBit(b, i);
    ComplementedByteBit(row[w], k, i);
  }

  lemma {:induction false} ReversedBit(b: byte, i: bv8)
    requires i < 8
    ensures BitOf8(ReverseBitsOf(b), 7 - i) == BitOf8(b, i)
  {
  }

  /** Byte `4 * w + k` of the scanline comes from byte `k` of the complemented word `w`. */
  lemma {:induction false} ScanLineByte(row: seq<bv32>, w: nat, k: nat)
    requires w < |row| && k < 4
    ensures 4 * w + k < |ScanLine(row)|
    ensures ScanLine(row)[4 * w + k] == ReverseBitsOf(LittleEndian32(!row[w])[k])
  {
    var complemented := ComplementWords(row);
    assert complemented[w] == !row[w];
    assert WordsToBytes(complemented)[4 * w + k] == LittleEndian32(complemented[w])[k];
  }

  lemma {:induction false} ComplementedByteBit(v: bv32, k: nat, i: bv8)
    requires k < 4 && i < 8
    ensures BitOf8(LittleEndian32(!v)[k], i) == !BitOf32(v, ByteShift(k) + i as bv32)
  {
    if k == 0 {
      assert LittleEndian32(!v)[k] == (!v & 0xFF) as byte;
    } else if k == 1 {
      assert LittleEndian32(!v)[k] == ((!v >> 8) & 0xFF) as byte;
    } else if k == 2 {
      assert LittleEndian32(!v)[k] == ((!v >> 16) & 0xFF) as byte;
    } else {
      assert LittleEndian32(!v)[k] == (!v >> 24) as byte;
    }
  }

  /**
   * The row transform of the loop body: `getRow` copies the row, `Negate`
   * complements it in place, `GetBytes` views it as bytes and `ReverseBits`
   * reverses each byte in place. A vectorised `Negate` of an empty row
   * fails.
   */
  method TransformRow(row: seq<bv32>, simd: Simd) returns (ok: bool, currentScanLine: seq<byte>)
    ensures ok == (simd == NoVectors || |row| > 0)
    ensures ok ==> currentScanLine == ScanLine(row)
  {
    var bitArray := new bv32[|row|](i requires 0 <= i < |row| => row[i]);
    ok := NegateInts(bitArray, simd);
    if !ok {
      return ok, [];
    }
    var view := GetBytes(bitArray);
    ReverseBitsBytes(view, simd);
    currentScanLine := view[..];
  }

  /** The scanline of every matrix row. */
  function ScanLines(rows: seq<seq<bv32>>): (r: seq<seq<byte>>)
    ensures |r| == |rows|
  {
    seq(|rows|, y requires 0 <= y < |rows| => ScanLine(rows[y]))
  }

  /** The row passed as previous when row `y` is written: none for the first. */
  function Previous(lines: seq<seq<byte>>, y: nat): seq<byte>
    requires y < |lines|
  {
    if y == 0 then [] else lines[y - 1]
  }

  /** The record of each row, written against the row before it. */
  function RowRecordList(widthInBytes: nat, lines: seq<seq<byte>>): (r: seq<seq<byte>>)
    ensures |r| == |lines|
  {
    seq(|lines|, y requires 0 <= y < |lines| => Record(widthInBytes, lines[y], Previous(lines, y)))
  }

  /** The writer's blank-row counter after the first `n` rows. */
  function BlankRun(widthInBytes: nat, lines: seq<seq<byte>>, n: nat): (b: int)
    requires n <= |lines|
    ensures -1 <= b <= n
  {
    if n == 0 then -1
    else NextBlankLines(BlankRun(widthInBytes, lines, n - 1), widthInBytes, lines[n - 1], Previous(lines, n - 1))
  }

  /** The rows the blank-row counter counts are white. */
  lemma {:induction false} BlankRunIsWhite(widthInBytes: nat, lines: seq<seq<byte>>, n: nat)
    requires n <= |lines|
    ensures forall j :: n - BlankRun(widthInBytes, lines, n) <= j < n ==> lines[j] == Repeat(0xFF, widthInBytes)
  {
    if n > 0 {
      BlankRunIsWhite(widthInBytes, lines, n - 1);
    }
  }

  /** A white row's record is one scanline long, whichever filter it gets. */
  lemma {:induction false} WhiteRecordLength(widthInBytes: nat, line: seq<byte>, previous: seq<byte>)
    requires line == Repeat(0xFF, widthInBytes)
    ensures |Record(widthInBytes, line, previous)| == widthInBytes + 1
  {
    RecordLayout(widthInBytes, line, previous);
  }

  /**
   * The rows `EnsureBlankScanLines(13)` takes back from the bottom of the
   * barcode are white, so each of their records is one scanline long.
   */
  lemma {:induction false} RewoundRowsAreWhite(widthInBytes: nat, lines: seq<seq<byte>>)
    ensures forall j :: |lines| - CaptionRewind(widthInBytes, lines) <= j < |lines| ==>
              |RowRecordList(widthInBytes, lines)[j]| == widthInBytes + 1
  {
    var records := RowRecordList(widthInBytes, lines);
    var n := |lines|;
    var k := CaptionRewind(widthInBytes, lines);
    BlankRunIsWhite(widthInBytes, lines, n);
    forall j | n - k <= j < n
      ensures |records[j]| == widthInBytes + 1
    {
      WhiteRecordLength(widthInBytes, lines[j], Previous(lines, j));
    }
  }

  /** The bytes `EnsureBlankScanLines(13)` moves the cursor back by after the barcode. */
  function RewoundBytes(widthInBytes: nat, lines: seq<seq<byte>>): nat
  {
    (widthInBytes + 1) * CaptionRewind(widthInBytes, lines)
  }

  /**
   * Moving the cursor back by `RewoundBytes` lands inside the buffer, at the
   * end of the records of the rows that are kept.
   */
  lemma {:induction false} RewoundPrefix(widthInBytes: nat, lines: seq<seq<byte>>, buffer: seq<byte>)
    requires buffer == Concat(RowRecordList(widthInBytes, lines))
    ensures RewoundBytes(widthInBytes, lines) <= |buffer|
    ensures buffer[..|buffer| - RewoundBytes(widthInBytes, lines)]
            == Concat(RowRecordList(widthInBytes, lines)[..|lines| - CaptionRewind(widthInBytes, lines)])
  {
    var k := CaptionRewind(widthInBytes, lines);
    RewoundRowsAreWhite(widthInBytes, lines);
    ConcatDropUniformSuffix(RowRecordList(widthInBytes, lines), k, widthInBytes + 1);
    assert k * (widthInBytes + 1) == RewoundBytes(widthInBytes, lines);
  }

  /**
   * The caption goes over the white rows at the bottom of the barcode: the
   * cursor moved back over the rows taken back lands inside the buffer, and
   * the 13 caption records written there replace them exactly.
   */
  lemma {:induction false} CaptionReplacesWhiteRows(widthInBytes: nat, font: Font, content: string, lines: seq<seq<byte>>, buffer: seq<byte>)
    requires WellFormedFont(font)
    requires buffer == Concat(RowRecordList(widthInBytes, lines))
    requires RewoundBytes(widthInBytes, lines) <= |CaptionRecords(widthInBytes, font, Utf16(content))|
    ensures RewoundBytes(widthInBytes, lines) <= |buffer|
    ensures Overwrite(buffer, |buffer| - RewoundBytes(widthInBytes, lines), CaptionRecords(widthInBytes, font, Utf16(content)))
            == ImageRows(widthInBytes, font, content, true, lines)
  {
    RewoundPrefix(widthInBytes, lines, buffer);
    OverwritePastEnd(buffer, |buffer| - RewoundBytes(widthInBytes, lines), CaptionRecords(widthInBytes, font, Utf16(content)));
  }

  /** The caption is at least as long as the rows it can take back. */
  lemma {:induction false} CaptionCoversRewind(widthInBytes: nat, font: Font, content: string, lines: seq<seq<byte>>)
    requires WellFormedFont(font)
    ensures RewoundBytes(widthInBytes, lines) <= |CaptionRecords(widthInBytes, font, Utf16(content))|
  {
    var k := CaptionRewind(widthInBytes, lines);
    CaptionLengthAtLeast(widthInBytes, font, Utf16(content));
    MulMonotone(k, CaptionHeight, widthInBytes + 1);
    assert RewoundBytes(widthInBytes, lines) == k * (widthInBytes + 1);
  }

  // ---------------------------------------------------------------------
  // The image

  /** Whether every row survives the transform: only a vectorised negation of an empty row fails. */
  predicate RowsTransform(simd: Simd, matrix: BitMatrix)
  {
    simd == NoVectors || matrix.height == 0 || matrix.width > 0
  }

  /** The number of rows the caption takes back from the bottom of the barcode. */
  function CaptionRewind(widthInBytes: nat, lines: seq<seq<byte>>): (k: nat)
    ensures k <= CaptionHeight && k <= |lines|
  {
    RewindCount(BlankRun(widthInBytes, lines, |lines|), CaptionHeight)
  }

  /** The filtered rows `Finish` compresses: the barcode's, then the caption over its white bottom rows. */
  function ImageRows(widthInBytes: nat, font: Font, content: string, includeText: bool, lines: seq<seq<byte>>): seq<byte>
    requires WellFormedFont(font)
  {
    var records := RowRecordList(widthInBytes, lines);
    if includeText then Concat(records[..|records| - CaptionRewind(widthInBytes, lines)]) + CaptionRecords(widthInBytes, font, Utf16(content))
    else Concat(records)
  }

  /** The height the IHDR chunk ends up declaring. */
  function ImageHeight(widthInBytes: nat, includeText: bool, lines: seq<seq<byte>>): nat
  {
    if includeText then |lines| + CaptionHeight - CaptionRewind(widthInBytes, lines) else |lines|
  }

  /** The file the writer holds once the caption, if any, and the closing chunks are written. */
  ghost function FinishedImage(codecs: Codecs, font: Font, content: string, includeText: bool, widthInBytes: nat,
                               lines: seq<seq<byte>>, header: seq<byte>): seq<byte>
    requires WellFormedFont(font) && (includeText ==> |lines| + CaptionHeight <= MaxSpan) && |header| >= HeightPosition + 4
    requires |codecs.zlib(ImageRows(widthInBytes, font, content, includeText, lines))| <= MaxSpan
  {
    (if includeText then PatchBigEndian32(header, Int32Bits(ImageHeight(widthInBytes, includeText, lines)), HeightPosition) else header)
    + Chunk(codecs.crc32, IDAT, codecs.zlib(ImageRows(widthInBytes, font, content, includeText, lines)))
    + Chunk(codecs.crc32, IEND, [])
  }

  /** The filtered rows of the image `Render` produces. */
  function RenderedRows(font: Font, matrix: BitMatrix, content: string, options: Option<EncodingOptions>): seq<byte>
    requires WellFormedFont(font)
  {
    ImageRows(WidthInBytes(OutputWidth(matrix.width, content, IncludeText(content, options))), font, content,
              IncludeText(content, options), ScanLines(matrix.rows))
  }

  /**
   * The row buffer and its compressed form each stay within the
   * 2^31 - 1 bytes a `MemoryStream` holds; past that the source throws
   * while it writes the rows or compresses them.
   */
  ghost predicate BuffersFit(codecs: Codecs, font: Font, matrix: BitMatrix, content: string, options: Option<EncodingOptions>)
    requires WellFormedFont(font)
  {
    && |RenderedRows(font, matrix, content, options)| <= MaxSpan
    && |codecs.zlib(RenderedRows(font, matrix, content, options))| <= MaxSpan
  }

  /** The PNG file `Render` produces. */
  ghost function RenderedPng(codecs: Codecs, font: Font, matrix: BitMatrix, content: string,
                             options: Option<EncodingOptions>, textualInformation: Option<TextualInformation>): seq<byte>
    requires WellFormedFont(font) && WellFormedMatrix(matrix) && WithinLimits(matrix, content, options)
    requires TextFits(codecs, textualInformation) && BuffersFit(codecs, font, matrix, content, options)
  {
    FinishedImage(codecs, font, content, IncludeText(content, options), WidthInBytes(OutputWidth(matrix.width, content, IncludeText(content, options))),
                  ScanLines(matrix.rows),
                  Header(codecs.crc32, Int32Bits(OutputWidth(matrix.width, content, IncludeText(content, options))), Int32Bits(matrix.height))
                  + TextChunkBytes(codecs, textualInformation))
  }

  /**
   * The image is well formed for a decoder when the scanlines fit the
   * width: then every record is one filter byte and `widthInBytes` pixel
   * bytes, and there are as many as the declared height.
   */
  lemma {:induction false} RowsMatchDeclaredHeight(widthInBytes: nat, font: Font, content: string, includeText: bool, lines: seq<seq<byte>>)
    requires WellFormedFont(font)
    requires forall y :: 0 <= y < |lines| ==> |lines[y]| <= widthInBytes
    requires includeText ==> |Utf16(content)| <= widthInBytes
    ensures |ImageRows(widthInBytes, font, content, includeText, lines)|
         == ImageHeight(widthInBytes, includeText, lines) * (widthInBytes + 1)
  {
    var records := RowRecordList(widthInBytes, lines);
    forall y | 0 <= y < |records|
      ensures |records[y]| == widthInBytes + 1
    {
      RecordLayout(widthInBytes, lines[y], Previous(lines, y));
    }
    if includeText {
      var kept := records[..|lines| - CaptionRewind(widthInBytes, lines)];
      ConcatUniformLength(kept, widthInBytes + 1);
      CaptionRecordsShape(widthInBytes, font, Utf16(content));
      assert |kept| * (widthInBytes + 1) + CaptionHeight * (widthInBytes + 1)
          == (|kept| + CaptionHeight) * (widthInBytes + 1);
    } else {
      ConcatUniformLength(records, widthInBytes + 1);
    }
  }

  /**
   * The row loop: each row transformed and written against the previous
   * one, the first against none.
   */
  method WriteMatrixRows(pngImageWriter: PngImageWriter, matrix: BitMatrix, simd: Simd) returns (ok: bool)
    requires pngImageWriter.Valid() && pngImageWriter.toDeflateStream != null
    requires WellFormedMatrix(matrix)
    requires pngImageWriter.height == matrix.height && pngImageWriter.linesWritten == 0 && pngImageWriter.blankLines == -1
    requires pngImageWriter.deflate.buffer == [] && pngImageWriter.deflate.position == 0
    modifies pngImageWriter, pngImageWriter.deflate
    ensures pngImageWriter.Valid()
    ensures pngImageWriter.toDeflateStream == old(pngImageWriter.toDeflateStream)
    ensures pngImageWriter.height == old(pngImageWriter.height)
    ensures unchanged(pngImageWriter.Stream)
    ensures ok == RowsTransform(simd, matrix)
    ensures ok ==>
      var lines := ScanLines(matrix.rows);
      && pngImageWriter.deflate.buffer == Concat(RowRecordList(pngImageWriter.widthInBytes, lines))
      && pngImageWriter.deflate.position == |pngImageWriter.deflate.buffer|
      && pngImageWriter.linesWritten == matrix.height
      && pngImageWriter.blankLines == BlankRun(pngImageWriter.widthInBytes, lines, |lines|)
  {
    ghost var lines := ScanLines(matrix.rows);
    ghost var records := RowRecordList(pngImageWriter.widthInBytes, lines);
    var previousScanLine: seq<byte> := [];
    ok := true;
    assert records[..0] == [];
    for y := 0 to matrix.height
      invariant pngImageWriter.Valid()
      invariant pngImageWriter.toDeflateStream == old(pngImageWriter.toDeflateStream)
      invariant pngImageWriter.height == old(pngImageWriter.height)
      invariant pngImageWriter.linesWritten == y
      invariant pngImageWriter.deflate.buffer == Concat(records[..y])
      invariant pngImageWriter.deflate.position == |pngImageWriter.deflate.buffer|
      invariant pngImageWriter.blankLines == BlankRun(pngImageWriter.widthInBytes, lines, y)
      invariant y < matrix.height ==> previousScanLine == Previous(lines, y)
      invariant y > 0 ==> RowsTransform(simd, matrix)
    {
      ok, previousScanLine := WriteMatrixRow(pngImageWriter, matrix, simd, previousScanLine, lines, records, y);
      if !ok {
        return;
      }
    }
    assert records[..matrix.height] == records;
  }

  /**
   * One turn of the row loop: row `y` transformed and written against the
   * previous one, its record following those before it.
   */
  method WriteMatrixRow(pngImageWriter: PngImageWriter, matrix: BitMatrix, simd: Simd, previousScanLine: seq<byte>,
                        ghost lines: seq<seq<byte>>, ghost records: seq<seq<byte>>, y: nat)
      returns (ok: bool, currentScanLine: seq<byte>)
    requires pngImageWriter.Valid() && pngImageWriter.toDeflateStream != null
    requires WellFormedMatrix(matrix) && y < matrix.height
    requires pngImageWriter.linesWritten == y && pngImageWriter.height == matrix.height
    requires lines == ScanLines(matrix.rows) && records == RowRecordList(pngImageWriter.widthInBytes, lines)
    requires previousScanLine == Previous(lines, y)
    requires pngImageWriter.deflate.buffer == Concat(records[..y])
    requires pngImageWriter.deflate.position == |pngImageWriter.deflate.buffer|
    requires pngImageWriter.blankLines == BlankRun(pngImageWriter.widthInBytes, lines, y)
    modifies pngImageWriter, pngImageWriter.deflate
    ensures ok == (simd == NoVectors || matrix.width > 0)
    ensures !ok ==> unchanged(pngImageWriter, pngImageWriter.deflate)
    ensures pngImageWriter.Valid()
    ensures pngImageWriter.toDeflateStream == old(pngImageWriter.toDeflateStream)
    ensures pngImageWriter.height == old(pngImageWriter.height)
    ensures unchanged(pngImageWriter.Stream)
    ensures ok ==>
      && currentScanLine == lines[y]
      && pngImageWriter.linesWritten == y + 1
      && pngImageWriter.deflate.buffer == Concat(records[..y + 1])
      && pngImageWriter.deflate.position == |pngImageWriter.deflate.buffer|
      && pngImageWriter.blankLines == BlankRun(pngImageWriter.widthInBytes, lines, y + 1)
  {
    ok, currentScanLine := TransformRow(matrix.rows[y], simd);
    assert matrix.width == 0 ==> (matrix.width + 31) / 32 == 0;
    if !ok {
      return;
    }
    var outcome := pngImageWriter.WriteLine(currentScanLine, previousScanLine);
    OverwriteAtEnd(Concat(records[..y]), records[y]);
    ConcatPrefixStep(records, y);
  }

  /**
   * The caption under the barcode: `PngImageTextWriter.Write` after every
   * matrix row, its 13 rows over the white rows at the bottom.
   */
  method AddCaption(pngImageWriter: PngImageWriter, content: string, font: Font, ghost lines: seq<seq<byte>>)
    requires pngImageWriter.Valid() && pngImageWriter.toDeflateStream != null && WellFormedFont(font)
    requires GlyphHeight * |Utf16(content)| <= MaxSpan
    requires pngImageWriter.height + CaptionHeight <= MaxSpan
    requires (pngImageWriter.widthInBytes + 1) * CaptionHeight <= MaxSpan
    requires pngImageWriter.deflate.buffer == Concat(RowRecordList(pngImageWriter.widthInBytes, lines))
    requires pngImageWriter.deflate.position == |pngImageWriter.deflate.buffer|
    requires pngImageWriter.blankLines == BlankRun(pngImageWriter.widthInBytes, lines, |lines|)
    requires pngImageWriter.linesWritten == pngImageWriter.height == |lines|
    modifies pngImageWriter, pngImageWriter.Stream, pngImageWriter.deflate
    ensures pngImageWriter.Valid()
    ensures pngImageWriter.toDeflateStream == old(pngImageWriter.toDeflateStream)
    ensures pngImageWriter.deflate.buffer == ImageRows(pngImageWriter.widthInBytes, font, content, true, lines)
    ensures pngImageWriter.height == ImageHeight(pngImageWriter.widthInBytes, true, lines)
    ensures pngImageWriter.linesWritten == pngImageWriter.height
    ensures pngImageWriter.Stream.buffer == PatchBigEndian32(old(pngImageWriter.Stream.buffer), Int32Bits(pngImageWriter.height), HeightPosition)
    ensures pngImageWriter.Stream.position == old(pngImageWriter.Stream.position)
  {
    ghost var wib := pngImageWriter.widthInBytes;
    ghost var before := pngImageWriter.deflate.buffer;
    ghost var k := RewindCount(pngImageWriter.blankLines, CaptionHeight);
    ghost var start := |before| - RewoundBytes(wib, lines);
    ghost var caption := CaptionRecords(wib, font, Utf16(content));
    CaptionCoversRewind(wib, font, content, lines);
    CaptionReplacesWhiteRows(wib, font, content, lines, before);
    assert k == CaptionRewind(wib, lines);
    assert start == pngImageWriter.deflate.position - ScanlineBytes(wib, k);
    var outcome := Write(pngImageWriter, content, font);
    assert outcome == Done;
    assert pngImageWriter.deflate.buffer == Overwrite(before, start, caption);
  }

  /**
   * The sizes `Render` hands on stay within what the writer accepts: the
   * widened width, the height with a caption, and the caption's bytes.
   */
  lemma {:induction false} RenderSizesFit(matrix: BitMatrix, content: string, options: Option<EncodingOptions>)
    requires WithinLimits(matrix, content, options)
    ensures var includeText := IncludeText(content, options);
            var width := OutputWidth(matrix.width, content, includeText);
            && width <= MaxSpan - 7
            && (includeText ==>
                 && 8 * |Utf16(content)| <= MaxSpan
                 && GlyphHeight * |Utf16(content)| <= MaxSpan
                 && matrix.height + CaptionHeight <= MaxSpan
                 && (WidthInBytes(width) + 1) * CaptionHeight <= MaxSpan)
  {
    var includeText := IncludeText(content, options);
    if includeText {
      var width := OutputWidth(matrix.width, content, true);
      var wib := WidthInBytes(width);
      assert width <= 8 * wib;
      assert wib <= 0x0FFF_FFFF;
      MulMonotone(wib, 0x0FFF_FFFF, 8);
    }
  }

  /**
   * The row buffer holds at least one scanline per matrix row: the caption
   * adds at least as many scanlines as it takes back.
   */
  lemma {:induction false} RowsAtLeastCapacity(widthInBytes: nat, font: Font, content: string, includeText: bool, lines: seq<seq<byte>>)
    requires WellFormedFont(font)
    ensures |ImageRows(widthInBytes, font, content, includeText, lines)| >= |lines| * (widthInBytes + 1)
  {
    var records := RowRecordList(widthInBytes, lines);
    RecordsAtLeastWidth(widthInBytes, lines);
    if includeText {
      var k := CaptionRewind(widthInBytes, lines);
      var kept := records[..|lines| - k];
      CaptionedRowsAtLeast(widthInBytes, font, Utf16(content), kept, k);
      assert |kept| + k == |lines|;
      assert ImageRows(widthInBytes, font, content, includeText, lines) == Concat(kept) + CaptionRecords(widthInBytes, font, Utf16(content));
    } else {
      ConcatAtLeast(records, widthInBytes + 1);
      assert ImageRows(widthInBytes, font, content, includeText, lines) == Concat(records);
    }
  }

  /** The kept barcode records and the caption's 13 make at least one record per barcode row. */
  lemma {:induction false} CaptionedRowsAtLeast(widthInBytes: nat, font: Font, text: seq<CodeUnit>, kept: seq<seq<byte>>, k: nat)
    requires WellFormedFont(font) && k <= CaptionHeight
    requires forall y :: 0 <= y < |kept| ==> |kept[y]| >= widthInBytes + 1
    ensures |Concat(kept) + CaptionRecords(widthInBytes, font, text)| >= (|kept| + k) * (widthInBytes + 1)
  {
    ConcatAtLeast(kept, widthInBytes + 1);
    CaptionLengthAtLeast(widthInBytes, font, text);
    AddScanlines(|Concat(kept)|, |CaptionRecords(widthInBytes, font, text)|, |kept|, k, widthInBytes + 1);
  }

  /** Every scanline record is at least the filter byte and `widthInBytes` pixels. */
  lemma {:induction false} RecordsAtLeastWidth(widthInBytes: nat, lines: seq<seq<byte>>)
    ensures forall y :: 0 <= y < |lines| ==> |RowRecordList(widthInBytes, lines)[y]| >= widthInBytes + 1
  {
    forall y | 0 <= y < |lines|
      ensures |RowRecordList(widthInBytes, lines)[y]| >= widthInBytes + 1
    {
      RecordLayout(widthInBytes, lines[y], Previous(lines, y));
    }
  }

  /** `p` scanlines and then 13 make at least `p + k` of them when `k` is at most 13. */
  lemma {:induction false} AddScanlines(a: nat, b: nat, p: nat, k: nat, len: nat)
    requires a >= p * len && b >= CaptionHeight * len && k <= CaptionHeight
    ensures a + b >= (p + k) * len
  {
    MulMonotone(k, CaptionHeight, len);
    assert (p + k) * len == p * len + k * len;
  }

  /**
   * When the rows fit a `MemoryStream`, so does the capacity the writer
   * asks for: `new MemoryStream((widthInBytes + 1) * height)` succeeds.
   */
  lemma {:induction false} RenderCapacityFits(codecs: Codecs, font: Font, matrix: BitMatrix, content: string, options: Option<EncodingOptions>)
    requires WellFormedFont(font) && WellFormedMatrix(matrix)
    requires BuffersFit(codecs, font, matrix, content, options)
    ensures CapacityFits(WidthInBytes(OutputWidth(matrix.width, content, IncludeText(content, options))), matrix.height)
  {
    var includeText := IncludeText(content, options);
    var wib := WidthInBytes(OutputWidth(matrix.width, content, includeText));
    RowsAtLeastCapacity(wib, font, content, includeText, ScanLines(matrix.rows));
    assert matrix.height * (wib + 1) == (wib + 1) * matrix.height;
    SmallCapacityFits(wib, matrix.height);
  }

  /** The bytes `Render` computes, for its caption decision and width, are `RenderedPng`. */
  lemma {:induction false} RenderedPngIs(codecs: Codecs, font: Font, matrix: BitMatrix, content: string, options: Option<EncodingOptions>,
                      textualInformation: Option<TextualInformation>, includeText: bool, width: nat, bytes: seq<byte>)
    requires WellFormedFont(font) && WellFormedMatrix(matrix) && WithinLimits(matrix, content, options)
    requires TextFits(codecs, textualInformation) && BuffersFit(codecs, font, matrix, content, options)
    requires includeText == IncludeText(content, options) && width == OutputWidth(matrix.width, content, includeText)
    requires bytes == FinishedImage(codecs, font, content, includeText, WidthInBytes(width), ScanLines(matrix.rows),
                                    Header(codecs.crc32, Int32Bits(width), Int32Bits(matrix.height))
                                    + TextChunkBytes(codecs, textualInformation))
    ensures RenderedPng(codecs, font, matrix, content, options, textualInformation) == bytes
  {
  }

  /**
   * After the matrix rows: the caption when it is included, then `Finish`;
   * the bytes are the whole file.
   */
  method CompleteImage(pngImageWriter: PngImageWriter, font: Font, content: string, includeText: bool,
                       ghost lines: seq<seq<byte>>) returns (bytes: seq<byte>)
    requires pngImageWriter.Valid() && pngImageWriter.toDeflateStream != null && WellFormedFont(font)
    requires includeText ==>
      && GlyphHeight * |Utf16(content)| <= MaxSpan
      && pngImageWriter.height + CaptionHeight <= MaxSpan
      && (pngImageWriter.widthInBytes + 1) * CaptionHeight <= MaxSpan
    requires |pngImageWriter.codecs.zlib(ImageRows(pngImageWriter.widthInBytes, font, content, includeText, lines))| <= MaxSpan
    requires pngImageWriter.deflate.buffer == Concat(RowRecordList(pngImageWriter.widthInBytes, lines))
    requires pngImageWriter.deflate.position == |pngImageWriter.deflate.buffer|
    requires pngImageWriter.blankLines == BlankRun(pngImageWriter.widthInBytes, lines, |lines|)
    requires pngImageWriter.linesWritten == pngImageWriter.height == |lines|
    modifies pngImageWriter, pngImageWriter.Stream, pngImageWriter.deflate
    ensures bytes == FinishedImage(pngImageWriter.codecs, font, content, includeText, pngImageWriter.widthInBytes,
                                   lines, old(pngImageWriter.Stream.buffer))
  {
    ghost var header := pngImageWriter.Stream.buffer;
    if includeText {
      AddCaption(pngImageWriter, content, font, lines);
    }
    var outcome := pngImageWriter.Finish();
    bytes := pngImageWriter.Stream.buffer;
  }

  /**
   * `Render` with its five arguments: sizes the image, writes every row of
   * the matrix, adds the caption when asked to, and finishes the file.
   */
  method Render(codecs: Codecs, font: Font, matrix: BitMatrix, content: string, options: Option<EncodingOptions>,
                textualInformation: Option<TextualInformation>, simd: Simd) returns (result: Rendered)
    requires WellFormedFont(font)
    requires WellFormedMatrix(matrix) && WithinLimits(matrix, content, options)
    requires TextFits(codecs, textualInformation) && BuffersFit(codecs, font, matrix, content, options)
    ensures !RowsTransform(simd, matrix) ==> result == IndexOutOfRange
    ensures RowsTransform(simd, matrix) ==>
      result == Png(RenderedPng(codecs, font, matrix, content, options, textualInformation))
  {
    var includeText := |content| > 0 && options.Some? && !options.value.pureBarcode;
    var width := matrix.width;
    if includeText {
      var requiredWidth := GetRequiredWidth(content);
      width := if width < requiredWidth then requiredWidth else width;
    }
    assert includeText == IncludeText(content, options);
    assert width == OutputWidth(matrix.width, content, includeText);
    RenderSizesFit(matrix, content, options);
    RenderCapacityFits(codecs, font, matrix, content, options);
    var pngImageWriter := new PngImageWriter(codecs, width, matrix.height, textualInformation);
    var ok := WriteMatrixRows(pngImageWriter, matrix, simd);
    if !ok {
      return IndexOutOfRange;
    }
    ghost var header := Header(codecs.crc32, Int32Bits(width), Int32Bits(matrix.height)) + TextChunkBytes(codecs, textualInformation);
    assert pngImageWriter.Stream.buffer == header;
    var bytes := CompleteImage(pngImageWriter, font, content, includeText, ScanLines(matrix.rows));
    RenderedPngIs(codecs, font, matrix, content, options, textualInformation, includeText, width, bytes);
    result := Png(bytes);
  }
}

/**
 * The incremental PNG encoder of src/PngImageWriter.cs.
 *
 * The writer puts the signature, the IHDR chunk and any text chunks into
 * `Stream` when it is built. Each scanline then goes into a second buffer
 * (`toDeflateStream`) as a filter byte and its pixels. `Finish` compresses
 * that buffer into one IDAT chunk and ends the image with IEND.
 *
 * A row equal to the previous one is written as filter 2 (Up) with all-zero
 * differences. The writer counts the blank rows at the end of the buffer, so
 * a caption can be written over them: `EnsureBlankScanLines` moves the cursor
 * back over them and raises the height in the IHDR chunk by what is missing.
 */
module ImageWriter {
  import opened Streams
  import opened Collaborators
  import opened Extensions
  import opened TextChunks

  // ---------------------------------------------------------------------
  // Chunks

  /** The eight bytes every PNG file starts with. */
  const Signature: seq<byte> := [137, 80, 78, 71, 13, 10, 26, 10]

  /** The chunk type codes "IHDR", "IDAT" and "IEND". */
  const IHDR: seq<byte> := [73, 72, 68, 82]
  const IDAT: seq<byte> := [73, 68, 65, 84]
  const IEND: seq<byte> := [73, 69, 78, 68]

  /** The CRC stored with a chunk: over the type, then continued over the data when there is any. */
  function ChunkCrc(crc: (seq<byte>, bv32) -> bv32, chunkType: seq<byte>, data: seq<byte>): bv32
  {
    var typeCrc := crc(chunkType, 0);
    if |data| > 0 then crc(data, typeCrc) else typeCrc
  }

  /** With a CRC that can be computed piecewise, the stored CRC is the CRC of type and data together. */
  lemma {:induction false} ChunkCrcCoversTypeAndData(crc: (seq<byte>, bv32) -> bv32, chunkType: seq<byte>, data: seq<byte>)
    requires Chainable(crc)
    ensures ChunkCrc(crc, chunkType, data) == crc(chunkType + data, 0)
  {
    if |data| == 0 {
      assert chunkType + data == chunkType;
    }
  }

  /** A chunk as `WriteChunk` lays it out: length, type, data, CRC, integers big-endian. */
  function Chunk(crc: (seq<byte>, bv32) -> bv32, chunkType: seq<byte>, data: seq<byte>): (r: seq<byte>)
    requires |data| <= MaxSpan
    ensures |r| == 12 + |chunkType| - 4 + |data|
  {
    BigEndian32(Int32Bits(|data|)) + chunkType + data + BigEndian32(ChunkCrc(crc, chunkType, data))
  }

  /**
   * A decoder reading a chunk written by `WriteChunk` finds the data length
   * in the first four bytes, then the type, the data, and the CRC over type
   * and data.
   */
  lemma {:induction false} ChunkFields(crc: (seq<byte>, bv32) -> bv32, chunkType: seq<byte>, data: seq<byte>)
    requires |chunkType| == 4 && |data| <= MaxSpan
    ensures var c := Chunk(crc, chunkType, data);
            && |c| == 12 + |data|
            && FromBigEndian32(c[..4]) == Int32Bits(|data|)
            && c[4..8] == chunkType
            && c[8..8 + |data|] == data
            && FromBigEndian32(c[8 + |data|..]) == ChunkCrc(crc, chunkType, data)
  {
    var c := Chunk(crc, chunkType, data);
    var lengthField := BigEndian32(Int32Bits(|data|));
    var crcField := BigEndian32(ChunkCrc(crc, chunkType, data));
    BigEndian32RoundTrip(Int32Bits(|data|), lengthField);
    BigEndian32RoundTrip(ChunkCrc(crc, chunkType, data), crcField);
    assert c[..4] == lengthField;
    assert c[8 + |data|..] == crcField;
  }

  /** The 13 bytes of IHDR: width, height, bit depth 1, colour type 0 (grey), compression, filter and interlace 0. */
  function IhdrData(width: bv32, height: bv32): (r: seq<byte>)
    ensures |r| == 13
  {
    BigEndian32(width) + BigEndian32(height) + [1, 0, 0, 0, 0]
  }

  /** What the writer puts in `Stream` before any image data. */
  function Header(crc: (seq<byte>, bv32) -> bv32, width: bv32, height: bv32): (r: seq<byte>)
    ensures |r| == 33
  {
    Signature + Chunk(crc, IHDR, IhdrData(width, height))
  }

  /** The bytes a row of `width` one-bit pixels takes, the last one possibly part-filled. */
  function WidthInBytes(width: nat): nat
  {
    (width + 7) / 8
  }

  /** Where in the stream the IHDR height sits: after the signature, the length, the type and the width. */
  const HeightPosition: nat := 20

  /** The header holds the width at offset 16 and the height at offset 20, most significant byte first. */
  lemma {:induction false} HeaderFields(crc: (seq<byte>, bv32) -> bv32, width: bv32, height: bv32)
    ensures Header(crc, width, height)[..8] == Signature
    ensures Header(crc, width, height)[8..12] == [0, 0, 0, 13]
    ensures Header(crc, width, height)[12..16] == IHDR
    ensures Header(crc, width, height)[16..20] == BigEndian32(width)
    ensures Header(crc, width, height)[HeightPosition..HeightPosition + 4] == BigEndian32(height)
    ensures Header(crc, width, height)[24..29] == [1, 0, 0, 0, 0]
  {
  }

  /** Whatever follows the header, the height field stays where IHDR put it. */
  lemma {:induction false} HeightFieldKept(crc: (seq<byte>, bv32) -> bv32, width: bv32, height: bv32, rest: seq<byte>)
    ensures |Header(crc, width, height) + rest| >= HeightPosition + 4
    ensures (Header(crc, width, height) + rest)[HeightPosition..HeightPosition + 4] == BigEndian32(height)
  {
    HeaderFields(crc, width, height);
    var header := Header(crc, width, height);
    assert (header + rest)[HeightPosition..HeightPosition + 4] == header[HeightPosition..HeightPosition + 4];
  }

  /**
   * `UpdateHeight` rewrites the height in IHDR but not the CRC after it: the
   * patched header is a fresh IHDR for the new height up to the CRC, whose
   * field still holds the CRC of the old data. That CRC is right for the new
   * data only if the CRC does not tell the two headers apart.
   */
  lemma {:induction false} PatchedHeaderKeepsOldCrc(crc: (seq<byte>, bv32) -> bv32, width: bv32, height: bv32, newHeight: bv32)
    ensures var patched := PatchBigEndian32(Header(crc, width, height), newHeight, HeightPosition);
            && patched[..29] == Header(crc, width, newHeight)[..29]
            && patched[8..29] == BigEndian32(Int32Bits(13)) + IHDR + IhdrData(width, newHeight)
            && FromBigEndian32(patched[29..]) == ChunkCrc(crc, IHDR, IhdrData(width, height))
            && (FromBigEndian32(patched[29..]) == ChunkCrc(crc, IHDR, IhdrData(width, newHeight))
                <==> ChunkCrc(crc, IHDR, IhdrData(width, height)) == ChunkCrc(crc, IHDR, IhdrData(width, newHeight)))
  {
    var stale := BigEndian32(ChunkCrc(crc, IHDR, IhdrData(width, height)));
    BigEndian32RoundTrip(ChunkCrc(crc, IHDR, IhdrData(width, height)), stale);
    var patched := PatchBigEndian32(Header(crc, width, height), newHeight, HeightPosition);
    var lead := Signature + BigEndian32(Int32Bits(13)) + IHDR;
    var fields := lead + IhdrData(width, newHeight);
    PatchedHeaderLayout(crc, width, height, newHeight);
    HeaderLayout(crc, width, newHeight);
    assert patched == fields + stale;
    assert patched[..29] == fields;
    assert patched[8..29] == fields[8..];
    assert patched[29..] == stale;
  }

  /** The patched header: the header of the new height, but with the CRC of the old one. */
  lemma {:induction false} PatchedHeaderLayout(crc: (seq<byte>, bv32) -> bv32, width: bv32, height: bv32, newHeight: bv32)
    ensures PatchBigEndian32(Header(crc, width, height), newHeight, HeightPosition)
            == Signature + BigEndian32(Int32Bits(13)) + IHDR + IhdrData(width, newHeight)
               + BigEndian32(ChunkCrc(crc, IHDR, IhdrData(width, height)))
  {
    var before := Header(crc, width, height);
    var lead := Signature + BigEndian32(Int32Bits(13)) + IHDR + BigEndian32(width);
    var tail: seq<byte> := [1, 0, 0, 0, 0];
    HeaderLayout(crc, width, height);
    assert before[..HeightPosition] == lead;
    assert before[HeightPosition + 4..] == tail + BigEndian32(ChunkCrc(crc, IHDR, IhdrData(width, height)));
  }

  /** The header byte by byte: signature, IHDR length and type, width, height, the five fixed fields, CRC. */
  lemma {:induction false} HeaderLayout(crc: (seq<byte>, bv32) -> bv32, width: bv32, height: bv32)
    ensures Header(crc, width, height)
            == Signature + BigEndian32(Int32Bits(13)) + IHDR + IhdrData(width, height)
               + BigEndian32(ChunkCrc(crc, IHDR, IhdrData(width, height)))
    ensures Header(crc, width, height)
            == Signature + BigEndian32(Int32Bits(13)) + IHDR + BigEndian32(width) + BigEndian32(height) + [1, 0, 0, 0, 0]
               + BigEndian32(ChunkCrc(crc, IHDR, IhdrData(width, height)))
  {
  }

  // ---------------------------------------------------------------------
  // Scanline records

  /** C#'s `/ 2` on an int, which truncates toward zero. */
  function TruncatedHalf(t: int): int
  {
    if t >= 0 then t / 2 else -((-t) / 2)
  }

  /** A row is written with filter Up when there is a previous row and it is the same. */
  predicate RepeatsPrevious(currentScanLine: seq<byte>, previousScanLine: seq<byte>)
  {
    |previousScanLine| != 0 && currentScanLine == previousScanLine
  }

  /** The 0xFF padding on either side of a row narrower than the image, the odd byte going right. */
  function LeftMargin(widthInBytes: nat, rowLength: nat): int
  {
    TruncatedHalf(widthInBytes - rowLength)
  }

  function RightMargin(widthInBytes: nat, rowLength: nat): int
  {
    (widthInBytes - rowLength) - LeftMargin(widthInBytes, rowLength)
  }

  /** The padding written for a margin: a margin that is not positive writes nothing. */
  function Padding(margin: int): seq<byte>
  {
    if margin > 0 then Repeat(0xFF, margin) else []
  }

  /** The bytes `WriteLine` appends to the buffer to be compressed for one row. */
  function Record(widthInBytes: nat, currentScanLine: seq<byte>, previousScanLine: seq<byte>): seq<byte>
  {
    if RepeatsPrevious(currentScanLine, previousScanLine) then [2] + Repeat(0, widthInBytes)
    else
      [0] + Padding(LeftMargin(widthInBytes, |currentScanLine|)) + currentScanLine
      + Padding(RightMargin(widthInBytes, |currentScanLine|))
  }

  /**
   * A repeated row becomes filter byte 2 and `widthInBytes` zero differences;
   * any other row becomes filter byte 0 and the row centred in 0xFF (white)
   * padding, or the whole row when it is wider than the image. Either way a
   * row no wider than the image gives exactly one PNG scanline.
   */
  lemma {:induction false} RecordLayout(widthInBytes: nat, cur: seq<byte>, prev: seq<byte>)
    ensures RepeatsPrevious(cur, prev) ==> Record(widthInBytes, cur, prev) == [2] + Repeat(0, widthInBytes)
    ensures !RepeatsPrevious(cur, prev) && |cur| <= widthInBytes ==>
      var left := (widthInBytes - |cur|) / 2;
      var right := widthInBytes - |cur| - left;
      && left <= right <= left + 1
      && Record(widthInBytes, cur, prev) == [0] + Repeat(0xFF, left) + cur + Repeat(0xFF, right)
    ensures !RepeatsPrevious(cur, prev) && |cur| > widthInBytes ==> Record(widthInBytes, cur, prev) == [0] + cur
    ensures |Record(widthInBytes, cur, prev)|
         == if RepeatsPrevious(cur, prev) || |cur| <= widthInBytes then 1 + widthInBytes else 1 + |cur|
  {
    if !RepeatsPrevious(cur, prev) && |cur| > widthInBytes {
      var total := widthInBytes - |cur|;
      assert total < 0;
      assert LeftMargin(widthInBytes, |cur|) == -((-total) / 2);
      assert LeftMargin(widthInBytes, |cur|) <= 0 && RightMargin(widthInBytes, |cur|) <= 0;
      assert [0] + [] + cur + [] == [0] + cur;
    }
  }

  /** The blank-row counter after writing a row. */
  function NextBlankLines(blankLines: int, widthInBytes: nat, currentScanLine: seq<byte>, previousScanLine: seq<byte>): int
  {
    if RepeatsPrevious(currentScanLine, previousScanLine) then
      (if blankLines > 0 then blankLines + 1 else blankLines)
    else if currentScanLine == Repeat(0xFF, widthInBytes) then 1
    else 0
  }

  /** How many rows `EnsureBlankScanLines(n)` takes back: at most `n`, and only blank ones. */
  function RewindCount(blankLines: int, n: nat): (k: nat)
    ensures k <= n && (blankLines > 0 ==> k <= blankLines) && (blankLines <= 0 ==> k == 0)
  {
    if blankLines > 0 then (if n < blankLines then n else blankLines) else 0
  }

  // ---------------------------------------------------------------------
  // The writer

  datatype Failure =
    | Disposed        // used after `Finish`
    | TooManyLines    // `WriteLine` with `height` rows already written
    | TooFewLines     // `Finish` with fewer than `height` rows written
    | NegativePosition // the buffer cursor moved before its start

  /** How a call ended: normally, or with the exception the source throws. */
  datatype Outcome = Done | Failed(failure: Failure)

  /** Every block's payload fits in a span. */
  ghost predicate BlocksFit(blocks: seq<Block>)
  {
    forall i :: 0 <= i < |blocks| ==> |blocks[i].data| <= MaxSpan
  }

  /** The chunk of each block, in order. */
  function BlockChunks(crc: (seq<byte>, bv32) -> bv32, blocks: seq<Block>): (r: seq<seq<byte>>)
    requires BlocksFit(blocks)
    ensures |r| == |blocks|
  {
    seq(|blocks|, i requires 0 <= i < |blocks| => Chunk(crc, blocks[i].chunkType, blocks[i].data))
  }

  /**
   * Every text payload fits in a .NET array and its length in the chunk's
   * 32-bit length field; a longer one makes `new byte[...]` in its layout
   * fail (see `PayloadLength` for the size).
   */
  ghost predicate TextFits(codecs: Codecs, textualInformation: Option<TextualInformation>)
  {
    textualInformation.Some? ==> BlocksFit(GetDataBlocks(codecs, textualInformation.value))
  }

  /**
   * The row buffer's capacity `(widthInBytes + 1) * height`, computed in
   * 32-bit arithmetic, is not negative; otherwise `new MemoryStream` throws.
   */
  predicate CapacityFits(widthInBytes: nat, height: nat)
  {
    ((widthInBytes + 1) * height) % 0x1_0000_0000 < 0x8000_0000
  }

  /** A capacity that fits an `int` is its own 32-bit value, so `new MemoryStream` accepts it. */
  lemma {:induction false} SmallCapacityFits(widthInBytes: nat, height: nat)
    requires (widthInBytes + 1) * height <= MaxSpan
    ensures CapacityFits(widthInBytes, height)
  {
  }

  /** The text chunks written after IHDR, one per present field. */
  function TextChunkBytes(codecs: Codecs, textualInformation: Option<TextualInformation>): seq<byte>
    requires TextFits(codecs, textualInformation)
  {
    if textualInformation.None? then []
    else Concat(BlockChunks(codecs.crc32, GetDataBlocks(codecs, textualInformation.value)))
  }

  /** The record of a repeated row: filter byte 2 (Up), then the all-zero differences. */
  method WriteUpRecord(toDeflateStream: MemoryStream, emptyScanLine: seq<byte>)
    requires toDeflateStream.Valid()
    modifies toDeflateStream
    ensures toDeflateStream.Valid()
    ensures toDeflateStream.buffer == Overwrite(old(toDeflateStream.buffer), old(toDeflateStream.position), [2] + emptyScanLine)
    ensures toDeflateStream.position == old(toDeflateStream.position) + 1 + |emptyScanLine|
  {
    var start := toDeflateStream.buffer;
    var pos := toDeflateStream.position;
    toDeflateStream.WriteByte(2);
    toDeflateStream.Write(emptyScanLine);
    OverwriteConsecutive(start, pos, [2], emptyScanLine);
  }

  /** Writes `Padding(margin)` from the white row, continuing a record begun at `pos`. */
  method WritePadding(toDeflateStream: MemoryStream, blankScanLine: seq<byte>, margin: int,
                      ghost start: seq<byte>, ghost pos: nat, ghost written: seq<byte>)
    requires toDeflateStream.Valid() && pos <= |start|
    requires margin <= |blankScanLine| && forall i :: 0 <= i < |blankScanLine| ==> blankScanLine[i] == 0xFF
    requires toDeflateStream.buffer == Overwrite(start, pos, written)
    requires toDeflateStream.position == pos + |written|
    modifies toDeflateStream
    ensures toDeflateStream.Valid()
    ensures toDeflateStream.buffer == Overwrite(start, pos, written + Padding(margin))
    ensures toDeflateStream.position == pos + |written + Padding(margin)|
  {
    OverwriteConsecutive(start, pos, written, Padding(margin));
    if margin > 0 {
      assert blankScanLine[..margin] == Padding(margin);
      toDeflateStream.Write(blankScanLine[..margin]);
    } else {
      assert written + Padding(margin) == written;
    }
  }

  /**
   * The record of any other row: filter byte 0 (None), the row centred in
   * 0xFF bytes taken from `blankScanLine`, the odd byte going right.
   */
  method WriteNoneRecord(toDeflateStream: MemoryStream, widthInBytes: nat, blankScanLine: seq<byte>, currentScanLine: seq<byte>)
    requires toDeflateStream.Valid()
    requires blankScanLine == Repeat(0xFF, widthInBytes)
    modifies toDeflateStream
    ensures toDeflateStream.Valid()
    ensures toDeflateStream.buffer == Overwrite(old(toDeflateStream.buffer), old(toDeflateStream.position), Record(widthInBytes, currentScanLine, []))
    ensures toDeflateStream.position == old(toDeflateStream.position) + |Record(widthInBytes, currentScanLine, [])|
  {
    var totalMargin := widthInBytes - |currentScanLine|;
    var leftMargin := TruncatedHalf(totalMargin);
    var rightMargin := totalMargin - leftMargin;
    ghost var start := toDeflateStream.buffer;
    ghost var pos := toDeflateStream.position;
    toDeflateStream.WriteByte(0);
    ghost var written: seq<byte> := [0];
    WritePadding(toDeflateStream, blankScanLine, leftMargin, start, pos, written);
    written := written + Padding(leftMargin);
    OverwriteConsecutive(start, pos, written, currentScanLine);
    toDeflateStream.Write(currentScanLine);
    written := written + currentScanLine;
    WritePadding(toDeflateStream, blankScanLine, rightMargin, start, pos, written);
    written := written + Padding(rightMargin);
    NoneRecordLayout(widthInBytes, currentScanLine, leftMargin, rightMargin);
  }

  /** A row written without a previous row gets filter byte 0 and its two margins. */
  lemma {:induction false} NoneRecordLayout(widthInBytes: nat, currentScanLine: seq<byte>, leftMargin: int, rightMargin: int)
    requires leftMargin == TruncatedHalf(widthInBytes - |currentScanLine|)
    requires rightMargin == (widthInBytes - |currentScanLine|) - leftMargin
    ensures Record(widthInBytes, currentScanLine, []) == [0] + Padding(leftMargin) + currentScanLine + Padding(rightMargin)
  {
    assert !RepeatsPrevious(currentScanLine, []);
  }

  class PngImageWriter {
    const codecs: Codecs
    const widthInBytes: nat
    /** `widthInBytes` zero bytes: the differences of a repeated row. */
    const emptyScanLine: seq<byte>
    /** `widthInBytes` 0xFF bytes: a white row. */
    const blankScanLine: seq<byte>
    var linesWritten: int
    var height: int
    /** Blank rows at the end of the buffer to be compressed; -1 before the first row. */
    var blankLines: int
    var heightPosition: int
    /** The buffer of filtered rows; null once `Finish` has run. */
    var toDeflateStream: MemoryStream?
    /** The PNG file. */
    const Stream: MemoryStream
    /** The buffer `toDeflateStream` held before `Finish` dropped it. */
    ghost const deflate: MemoryStream

    ghost predicate Valid()
      reads this, Stream, deflate
    {
      && Stream != deflate
      && emptyScanLine == Repeat(0, widthInBytes)
      && blankScanLine == Repeat(0xFF, widthInBytes)
      && Stream.Valid() && deflate.Valid()
      && heightPosition == HeightPosition
      && 0 <= height <= MaxSpan
      && linesWritten <= height
      && |Stream.buffer| >= HeightPosition + 4
      && Stream.buffer[HeightPosition..HeightPosition + 4] == BigEndian32(Int32Bits(height))
      && (toDeflateStream != null ==> toDeflateStream == deflate && Stream.position == |Stream.buffer|)
    }

    /**
     * Writes the signature, IHDR with the given size and the text chunks, and
     * starts an empty buffer of rows. The width is a number of pixels.
     */
    constructor (codecs: Codecs, width: int, height: int, textualInformation: Option<TextualInformation>)
      requires TextFits(codecs, textualInformation)
      requires 0 <= width <= MaxSpan - 7 && 0 <= height <= MaxSpan
      requires CapacityFits(WidthInBytes(width), height)
      ensures Valid() && fresh(Stream) && fresh(deflate)
      ensures this.codecs == codecs
      ensures widthInBytes == WidthInBytes(width)
      ensures this.height == height && linesWritten == 0 && blankLines == -1
      ensures Stream.buffer == Header(codecs.crc32, Int32Bits(width), Int32Bits(height)) + TextChunkBytes(codecs, textualInformation)
      ensures Stream.position == |Stream.buffer|
      ensures toDeflateStream == deflate && deflate.buffer == [] && deflate.position == 0
    {
      this.codecs := codecs;
      widthInBytes := WidthInBytes(width);
      this.height := height;
      linesWritten := 0;
      blankLines := -1;
      heightPosition := -1;
      Stream := new MemoryStream();
      emptyScanLine := Repeat(0, WidthInBytes(width));
      blankScanLine := Repeat(0xFF, WidthInBytes(width));
      var buffer := new MemoryStream();
      deflate := buffer;
      toDeflateStream := buffer;
      new;
      WriteHeaders(Int32Bits(width), Int32Bits(height), textualInformation);
    }

    /** The part of the constructor that writes: the signature, IHDR, then the text chunks. */
    method WriteHeaders(width: bv32, height: bv32, textualInformation: Option<TextualInformation>)
      requires TextFits(codecs, textualInformation)
      requires Stream.Valid() && Stream.buffer == [] && Stream.position == 0
      modifies this, Stream
      ensures Stream.Valid() && Stream.position == |Stream.buffer|
      ensures heightPosition == HeightPosition
      ensures Stream.buffer == Header(codecs.crc32, width, height) + TextChunkBytes(codecs, textualInformation)
      ensures |Stream.buffer| >= HeightPosition + 4
      ensures Stream.buffer[HeightPosition..HeightPosition + 4] == BigEndian32(height)
      ensures unchanged(this`linesWritten, this`height, this`blankLines, this`toDeflateStream)
    {
      WritePngHeader();
      WriteHdr(width, height);
      ghost var header := Header(codecs.crc32, width, height);
      assert Stream.buffer == header;
      WriteTextChunks(textualInformation);
      HeightFieldKept(codecs.crc32, width, height, TextChunkBytes(codecs, textualInformation));
    }

    /** The text chunks the constructor writes, if there is textual information. */
    method WriteTextChunks(textualInformation: Option<TextualInformation>)
      requires TextFits(codecs, textualInformation)
      requires Stream.Valid() && Stream.position == |Stream.buffer|
      modifies Stream
      ensures Stream.Valid() && Stream.position == |Stream.buffer|
      ensures Stream.buffer == old(Stream.buffer) + TextChunkBytes(codecs, textualInformation)
    {
      if textualInformation.Some? {
        var blocks := GetDataBlocks(codecs, textualInformation.value);
        WriteBlocks(blocks);
      } else {
        assert old(Stream.buffer) + [] == old(Stream.buffer);
      }
    }

    /** The loop of the constructor over the text blocks: one chunk per block, in order. */
    method WriteBlocks(blocks: seq<Block>)
      requires BlocksFit(blocks)
      requires Stream.Valid() && Stream.position == |Stream.buffer|
      modifies Stream
      ensures Stream.Valid() && Stream.position == |Stream.buffer|
      ensures Stream.buffer == old(Stream.buffer) + Concat(BlockChunks(codecs.crc32, blocks))
    {
      ghost var chunks := BlockChunks(codecs.crc32, blocks);
      for i := 0 to |blocks|
        invariant Stream.Valid() && Stream.position == |Stream.buffer|
        invariant Stream.buffer == old(Stream.buffer) + Concat(chunks[..i])
      {
        WriteChunk(blocks[i].chunkType, blocks[i].data);
        assert chunks[..i + 1][..i] == chunks[..i];
      }
      assert chunks[..|blocks|] == chunks;
    }

    /** `WritePngHeader`: the eight signature bytes. */
    method WritePngHeader()
      requires Stream.Valid() && Stream.position == |Stream.buffer|
      modifies Stream
      ensures Stream.Valid() && Stream.position == |Stream.buffer|
      ensures Stream.buffer == old(Stream.buffer) + Signature
    {
      OverwriteAtEnd(Stream.buffer, Signature);
      Stream.Write(Signature);
    }

    /**
     * `WriteChunk`: the data length, the type, the data, then the CRC over
     * type and data, all appended to `Stream`.
     */
    method WriteChunk(chunkType: seq<byte>, chunkData: seq<byte>)
      requires Stream.Valid() && Stream.position == |Stream.buffer|
      requires |chunkData| <= MaxSpan
      modifies Stream
      ensures Stream.Valid() && Stream.position == |Stream.buffer|
      ensures Stream.buffer == old(Stream.buffer) + Chunk(codecs.crc32, chunkType, chunkData)
    {
      WriteChunkBody(chunkType, chunkData);
      ghost var body := Stream.buffer;
      var crcHash := codecs.crc32(chunkType, 0);
      if |chunkData| > 0 {
        crcHash := codecs.crc32(chunkData, crcHash);
      }
      WriteUInt(Stream, crcHash);
      assert Stream.buffer == body + BigEndian32(ChunkCrc(codecs.crc32, chunkType, chunkData));
    }

    /** The part of `WriteChunk` before the CRC: the length big-endian, the type and the data. */
    method WriteChunkBody(chunkType: seq<byte>, chunkData: seq<byte>)
      requires Stream.Valid() && Stream.position == |Stream.buffer|
      requires |chunkData| <= MaxSpan
      modifies Stream
      ensures Stream.Valid() && Stream.position == |Stream.buffer|
      ensures Stream.buffer == old(Stream.buffer) + BigEndian32(Int32Bits(|chunkData|)) + chunkType + chunkData
    {
      WriteInt(Stream, |chunkData|);
      Stream.Write(chunkType);
      Stream.Write(chunkData);
    }

    /**
     * `WriteHdr`: notes where the height goes, fills the 13 IHDR bytes and
     * writes the chunk.
     */
    method WriteHdr(width: bv32, height: bv32)
      requires Stream.Valid() && Stream.position == |Stream.buffer|
      modifies this, Stream
      ensures Stream.Valid() && Stream.position == |Stream.buffer|
      ensures heightPosition == old(Stream.position) + 12
      ensures Stream.buffer == old(Stream.buffer) + Chunk(codecs.crc32, IHDR, IhdrData(width, height))
      ensures unchanged(this`linesWritten, this`height, this`blankLines, this`toDeflateStream)
    {
      heightPosition := Stream.position + 12;
      var hdrData := new byte[13];
      SetUInt(hdrData, width, 0);
      SetUInt(hdrData, height, 4);
      hdrData[8] := 1;
      hdrData[9] := 0;
      hdrData[10] := 0;
      hdrData[11] := 0;
      hdrData[12] := 0;
      assert hdrData[..] == IhdrData(width, height);
      WriteChunk(IHDR, hdrData[..]);
    }

    /** `WriteEnd`: the IEND chunk, with no data. */
    method WriteEnd()
      requires Stream.Valid() && Stream.position == |Stream.buffer|
      modifies Stream
      ensures Stream.Valid() && Stream.position == |Stream.buffer|
      ensures Stream.buffer == old(Stream.buffer) + Chunk(codecs.crc32, IEND, [])
    {
      WriteChunk(IEND, []);
    }

    /**
     * `UpdateHeight`: when the height changes, overwrites the four height
     * bytes of IHDR and puts the cursor back where it was. The CRC of IHDR is
     * left as it was.
     */
    method UpdateHeight(newHeight: int)
      requires Valid()
      requires 0 <= newHeight <= MaxSpan && linesWritten <= newHeight
      modifies this`height, Stream
      ensures Valid()
      ensures height == newHeight
      ensures Stream.buffer == PatchBigEndian32(old(Stream.buffer), Int32Bits(newHeight), HeightPosition)
      ensures Stream.position == old(Stream.position)
    {
      if height == newHeight {
        assert old(Stream.buffer) == PatchBigEndian32(old(Stream.buffer), Int32Bits(newHeight), HeightPosition);
        return;
      }
      height := newHeight;
      var position := Stream.position;
      var ok := Stream.SetPosition(heightPosition);
      WriteUInt(Stream, Int32Bits(newHeight));
      assert Stream.buffer == PatchBigEndian32(old(Stream.buffer), Int32Bits(newHeight), HeightPosition);
      ok := Stream.SetPosition(position);
    }

    /**
     * `WriteLine(current, previous)`: appends the row's record at the cursor
     * of the row buffer and counts the row.
     */
    method WriteLine(currentScanLine: seq<byte>, previousScanLine: seq<byte>) returns (outcome: Outcome)
      requires Valid()
      modifies this, deflate
      ensures Valid()
      ensures old(toDeflateStream) == null ==> outcome == Failed(Disposed)
      ensures old(toDeflateStream) != null && old(linesWritten) >= old(height) ==> outcome == Failed(TooManyLines)
      ensures outcome.Failed? ==> unchanged(this, deflate)
      ensures outcome == Done <==> old(toDeflateStream) != null && old(linesWritten) < old(height)
      ensures outcome == Done ==>
        && deflate.buffer == Overwrite(old(deflate.buffer), old(deflate.position), Record(widthInBytes, currentScanLine, previousScanLine))
        && deflate.position == old(deflate.position) + |Record(widthInBytes, currentScanLine, previousScanLine)|
        && linesWritten == old(linesWritten) + 1
        && blankLines == NextBlankLines(old(blankLines), widthInBytes, currentScanLine, previousScanLine)
        && height == old(height) && toDeflateStream == old(toDeflateStream)
      ensures unchanged(Stream)
    {
      if toDeflateStream == null {
        return Failed(Disposed);
      }
      if linesWritten >= height {
        return Failed(TooManyLines);
      }
      if RepeatsPrevious(currentScanLine, previousScanLine) {
        WriteUpRecord(toDeflateStream, emptyScanLine);
        if blankLines > 0 {
          blankLines := blankLines + 1;
        }
      } else {
        WriteNoneRecord(toDeflateStream, widthInBytes, blankScanLine, currentScanLine);
        if currentScanLine == blankScanLine {
          blankLines := 1;
        } else {
          blankLines := 0;
        }
      }
      linesWritten := linesWritten + 1;
      outcome := Done;
    }

    /** `WriteLine(current)`: a row with no previous row, so never filter Up. */
    method WriteLineWithoutPrevious(currentScanLine: seq<byte>) returns (outcome: Outcome)
      requires Valid()
      modifies this, deflate
      ensures Valid()
      ensures outcome == Done <==> old(toDeflateStream) != null && old(linesWritten) < old(height)
      ensures outcome.Failed? ==> unchanged(this, deflate)
      ensures old(toDeflateStream) == null ==> outcome == Failed(Disposed)
      ensures outcome == Done ==>
        && deflate.buffer == Overwrite(old(deflate.buffer), old(deflate.position), Record(widthInBytes, currentScanLine, []))
        && deflate.position == old(deflate.position) + |Record(widthInBytes, currentScanLine, [])|
        && linesWritten == old(linesWritten) + 1
        && blankLines == NextBlankLines(old(blankLines), widthInBytes, currentScanLine, [])
        && height == old(height) && toDeflateStream == old(toDeflateStream)
      ensures unchanged(Stream)
    {
      outcome := WriteLine(currentScanLine, []);
    }

    /** `WriteLine()`: a white row. */
    method WriteBlankLine() returns (outcome: Outcome)
      requires Valid()
      modifies this, deflate
      ensures Valid()
      ensures outcome == Done <==> old(toDeflateStream) != null && old(linesWritten) < old(height)
      ensures outcome.Failed? ==> unchanged(this, deflate)
      ensures old(toDeflateStream) == null ==> outcome == Failed(Disposed)
      ensures outcome == Done ==>
        && deflate.buffer == Overwrite(old(deflate.buffer), old(deflate.position), [0] + Repeat(0xFF, widthInBytes))
        && deflate.position == old(deflate.position) + 1 + widthInBytes
        && linesWritten == old(linesWritten) + 1
        && blankLines == 1
        && height == old(height) && toDeflateStream == old(toDeflateStream)
      ensures unchanged(Stream)
    {
      RecordLayout(widthInBytes, blankScanLine, []);
      outcome := WriteLineWithoutPrevious(blankScanLine);
    }

    /**
     * `EnsureBlankScanLines(n)`: makes room for `n` more rows. Up to `n` of the
     * blank rows at the end of the buffer are taken back (the cursor moves
     * back over their records) and the height grows by the rest. A cursor
     * that would move before the start fails, after the height and the row
     * count have changed.
     */
    method EnsureBlankScanLines(scanLineCount: nat) returns (outcome: Outcome)
      requires Valid()
      requires height + scanLineCount <= MaxSpan
      requires (widthInBytes + 1) * scanLineCount <= MaxSpan
      modifies this, Stream, deflate
      ensures Valid()
      ensures old(toDeflateStream) == null <==> outcome == Failed(Disposed)
      ensures outcome == Failed(Disposed) ==> unchanged(this, Stream, deflate)
      ensures old(toDeflateStream) != null ==>
        var k := RewindCount(old(blankLines), scanLineCount);
        && height == old(height) + scanLineCount - k
        && linesWritten == old(linesWritten) - k
        && height - linesWritten == old(height - linesWritten) + scanLineCount
        && Stream.buffer == PatchBigEndian32(old(Stream.buffer), Int32Bits(height), HeightPosition)
        && Stream.position == old(Stream.position)
        && deflate.buffer == old(deflate.buffer)
        && blankLines == old(blankLines)
        && toDeflateStream == old(toDeflateStream)
        && (outcome == Done <==> old(deflate.position) >= (widthInBytes + 1) * k)
        && (outcome == Done ==> deflate.position == old(deflate.position) - (widthInBytes + 1) * k)
        && (outcome.Failed? ==> outcome == Failed(NegativePosition) && deflate.position == old(deflate.position))
    {
      if toDeflateStream == null {
        return Failed(Disposed);
      }
      var linesToMoveBack := RewindCount(blankLines, scanLineCount);
      var linesToAdd := scanLineCount - linesToMoveBack;
      UpdateHeight(linesToAdd + height);
      linesWritten := linesWritten - linesToMoveBack;
      MulMonotone(linesToMoveBack, scanLineCount, widthInBytes + 1);
      var ok := toDeflateStream.SetPosition(toDeflateStream.position - (widthInBytes + 1) * linesToMoveBack);
      outcome := if ok then Done else Failed(NegativePosition);
    }

    /**
     * `Finish`: once every row is written, compresses the whole row buffer
     * into an IDAT chunk, appends IEND, drops the row buffer and rewinds
     * `Stream` to its start.
     */
    method Finish() returns (outcome: Outcome)
      requires Valid()
      requires toDeflateStream != null && linesWritten >= height ==> |codecs.zlib(deflate.buffer)| <= MaxSpan
      modifies this, Stream, deflate
      ensures Valid()
      ensures old(toDeflateStream) == null ==> outcome == Failed(Disposed)
      ensures old(toDeflateStream) != null && old(linesWritten) < old(height) ==> outcome == Failed(TooFewLines)
      ensures outcome == Done <==> old(toDeflateStream) != null && old(linesWritten) >= old(height)
      ensures outcome.Failed? ==> unchanged(this, Stream, deflate)
      ensures outcome == Done ==>
        && Stream.buffer == old(Stream.buffer)
             + Chunk(codecs.crc32, IDAT, codecs.zlib(old(deflate.buffer)))
             + Chunk(codecs.crc32, IEND, [])
        && Stream.position == 0
        && toDeflateStream == null
        && height == old(height) && linesWritten == old(linesWritten)
    {
      if toDeflateStream == null {
        return Failed(Disposed);
      }
      if linesWritten < height {
        return Failed(TooFewLines);
      }
      var ok := toDeflateStream.SetPosition(0);
      var deflatedBuffer := codecs.zlib(toDeflateStream.buffer);
      WriteChunk(IDAT, deflatedBuffer);
      toDeflateStream := null;
      WriteEnd();
      ok := Stream.SetPosition(0);
      outcome := Done;
    }
  }
}

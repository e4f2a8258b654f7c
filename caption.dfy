/**
 * The caption of src/PngImageTextWriter.cs: a line of text drawn under the
 * barcode in an 8-pixel-wide, 11-row bitmap font, one byte per UTF-16 code unit
 * and row, framed by a white row above and below.
 *
 * The caption works on the text's UTF-16 code units, as .NET's `Length`
 * and indexer do: a character outside the Basic Multilingual Plane takes
 * two cells. The font is a map from code units to their 11 rows; a code
 * unit missing from it is drawn as white.
 */
module Caption {
  import opened Streams
  import opened Collaborators
  import opened Extensions
  import opened ImageWriter
  import opened Strings

  /** Rows in a glyph. */
  const GlyphHeight: nat := 11

  /** Rows the caption takes: a white row, the glyphs, a white row. */
  const CaptionHeight: nat := 13

  /** Each code unit's bitmap: one byte (eight pixels, 0 = black) per row. */
  type Font = map<CodeUnit, seq<byte>>

  predicate WellFormedFont(font: Font)
  {
    forall ch :: ch in font ==> |font[ch]| == GlyphHeight
  }

  /**
   * `GetRequiredWidth`: the width in pixels a text needs, eight per UTF-16
   * code unit, so that the image holds exactly one byte per code unit.
   */
  function GetRequiredWidth(text: string): (w: nat)
    ensures w % 8 == 0
    ensures (w + 7) / 8 == |Utf16(text)|
  {
    |Utf16(text)| * 8
  }

  /** A character outside the Basic Multilingual Plane is 16 pixels wide: "A", U+1F600, "B" needs 32. */
  lemma {:induction false} RequiredWidthExample()
    ensures GetRequiredWidth("A\U{1F600}B") == 32
  {
    SurrogatePairExample();
  }

  /** Row `y` of code unit `c` of the caption: its glyph byte, or white if the font lacks it. */
  function Cell(font: Font, text: seq<CodeUnit>, y: nat, c: nat): byte
    requires WellFormedFont(font) && y < GlyphHeight && c < |text|
  {
    if text[c] in font then font[text[c]][y] else 0xFF
  }

  /** Pixel row `y` of the caption: row `y` of every code unit's glyph, in order. */
  function GlyphRow(font: Font, text: seq<CodeUnit>, y: nat): (r: seq<byte>)
    requires WellFormedFont(font) && y < GlyphHeight
  {
    seq(|text|, c requires 0 <= c < |text| => Cell(font, text, y, c))
  }

  /** Where cell (y, c) of a grid with rows of `len` bytes sits, and how to get y and c back. */
  lemma {:induction false} CellIndex(y: nat, c: nat, len: nat, rows: nat)
    requires y < rows && c < len
    ensures y * len + c < rows * len
    ensures (y * len + c) / len == y && (y * len + c) % len == c
    ensures (y + 1) * len == y * len + len
  {
    MulMonotoneStrict(y, rows, len);
    var n := y * len + c;
    var q := n / len;
    var r := n % len;
    assert n == q * len + r;
    if q > y {
      MulMonotoneStrict(y, q, len);
    } else if q < y {
      MulMonotoneStrict(q, y, len);
    }
  }

  /** Glyph row `y` of a grid with rows of `len` bytes starts at `len * y` and ends inside the grid. */
  lemma {:induction false} RowOfGrid(y: nat, len: nat)
    requires y < GlyphHeight
    ensures len * y == y * len
    ensures len * y + len <= GlyphHeight * len
  {
    MulMonotoneStrict(y, GlyphHeight, len);
  }

  /** `a < b` leaves room for a whole extra `c` between `a * c` and `b * c`. */
  lemma {:induction false} MulMonotoneStrict(a: nat, b: nat, c: nat)
    requires a < b
    ensures a * c + c <= b * c
  {
    MulMonotone(a + 1, b, c);
    assert (a + 1) * c == a * c + c;
  }

  /**
   * The grid while `Write` fills it: the glyphs of the code units before `c`
   * and the first `y` rows of code unit `c` are drawn, the rest is white.
   * The cell of code unit `c'` in row `y'` is at index `y' * |text| + c'`.
   */
  ghost predicate DrawnUpTo(grid: seq<byte>, font: Font, text: seq<CodeUnit>, c: nat, y: nat)
    requires WellFormedFont(font)
  {
    && |grid| == GlyphHeight * |text|
    && forall i :: 0 <= i < |grid| ==> grid[i] == DrawnCell(font, text, c, y, i)
  }

  /** What index `i` of the grid holds once the cells before (y, c) in column order are drawn. */
  function DrawnCell(font: Font, text: seq<CodeUnit>, c: nat, y: nat, i: nat): byte
    requires WellFormedFont(font) && i < GlyphHeight * |text|
  {
    if i % |text| < c || (i % |text| == c && i / |text| < y)
    then Cell(font, text, i / |text|, i % |text|) else 0xFF
  }

  /**
   * The glyph grid `Write` fills: `11 * |text|` bytes, first all white, then
   * for each code unit found in the font its 11 glyph rows, row `y` of
   * code unit `c` at index `y * |text| + c`. Row `y` of the grid is then the
   * `y`-th pixel row of the caption.
   */
  method GlyphGrid(font: Font, text: seq<CodeUnit>) returns (grid: seq<byte>)
    requires WellFormedFont(font)
    requires GlyphHeight * |text| <= MaxSpan
    ensures |grid| == GlyphHeight * |text|
    ensures forall y :: 0 <= y < GlyphHeight ==>
      grid[y * |text|..y * |text| + |text|] == GlyphRow(font, text, y)
  {
    var textLen := |text|;
    var row := new byte[textLen * 11];
    for i := 0 to row.Length
      invariant forall j :: 0 <= j < i ==> row[j] == 0xFF
    {
      row[i] := 0xFF;
    }
    assert DrawnUpTo(row[..], font, text, 0, 0);
    for c := 0 to textLen
      invariant DrawnUpTo(row[..], font, text, c, 0)
    {
      if text[c] in font {
        DrawGlyph(row, font, text, c, font[text[c]]);
      }
      DrawnNextColumn(row[..], font, text, c);
    }
    grid := row[..];
    DrawnGridRows(grid, font, text);
  }

  /** The inner loop of `Write`: the 11 rows of code unit `c`'s glyph go into column `c`. */
  method DrawGlyph(row: array<byte>, font: Font, text: seq<CodeUnit>, c: nat, charBitmap: seq<byte>)
    requires WellFormedFont(font) && c < |text| && text[c] in font && charBitmap == font[text[c]]
    requires DrawnUpTo(row[..], font, text, c, 0)
    modifies row
    ensures DrawnUpTo(row[..], font, text, c, GlyphHeight)
  {
    var textLen := |text|;
    for y := 0 to 11
      invariant DrawnUpTo(row[..], font, text, c, y)
    {
      CellIndex(y, c, textLen, 11);
      ghost var before := row[..];
      row[(y * textLen) + c] := charBitmap[y];
      assert row[..] == before[y * textLen + c := Cell(font, text, y, c)];
      DrawnStep(before, font, text, c, y);
    }
  }

  /** Drawing row `y` of code unit `c` extends the drawn part by one cell. */
  lemma {:induction false} DrawnStep(grid: seq<byte>, font: Font, text: seq<CodeUnit>, c: nat, y: nat)
    requires WellFormedFont(font) && c < |text| && y < GlyphHeight
    requires DrawnUpTo(grid, font, text, c, y)
    ensures y * |text| + c < |grid|
    ensures DrawnUpTo(grid[y * |text| + c := Cell(font, text, y, c)], font, text, c, y + 1)
  {
    CellIndex(y, c, |text|, GlyphHeight);
    var after := grid[y * |text| + c := Cell(font, text, y, c)];
    forall i | 0 <= i < |after|
      ensures after[i] == DrawnCell(font, text, c, y + 1, i)
    {
      DrawnStepAt(grid, font, text, c, y, i);
    }
  }

  lemma {:induction false} DrawnStepAt(grid: seq<byte>, font: Font, text: seq<CodeUnit>, c: nat, y: nat, i: nat)
    requires WellFormedFont(font) && c < |text| && y < GlyphHeight
    requires DrawnUpTo(grid, font, text, c, y)
    requires y * |text| + c < |grid| && i < |grid|
    ensures grid[y * |text| + c := Cell(font, text, y, c)][i] == DrawnCell(font, text, c, y + 1, i)
  {
    var len := |text|;
    if i == y * len + c {
      CellIndex(y, c, len, GlyphHeight);
    } else {
      OtherCellsKeepTheirPlace(i, y, c, len);
      assert grid[i] == DrawnCell(font, text, c, y, i);
    }
  }

  /** Only index `y * len + c` has quotient `y` and remainder `c`. */
  lemma {:induction false} OtherCellsKeepTheirPlace(i: nat, y: nat, c: nat, len: nat)
    requires c < len
    requires i != y * len + c
    ensures i % len == c ==> i / len != y
  {
    if i % len == c {
      assert i == (i / len) * len + c;
    }
  }

  /** Once every glyph row of code unit `c` is drawn (or it has none), column `c` is done. */
  lemma {:induction false} DrawnNextColumn(grid: seq<byte>, font: Font, text: seq<CodeUnit>, c: nat)
    requires WellFormedFont(font) && c < |text|
    requires text[c] in font ==> DrawnUpTo(grid, font, text, c, GlyphHeight)
    requires text[c] !in font ==> DrawnUpTo(grid, font, text, c, 0)
    ensures DrawnUpTo(grid, font, text, c + 1, 0)
  {
  }

  /** The rows of a fully drawn grid are the caption's pixel rows. */
  lemma {:induction false} DrawnGridRows(grid: seq<byte>, font: Font, text: seq<CodeUnit>)
    requires WellFormedFont(font)
    requires DrawnUpTo(grid, font, text, |text|, 0)
    ensures forall y :: 0 <= y < GlyphHeight ==>
      grid[y * |text|..y * |text| + |text|] == GlyphRow(font, text, y)
  {
    forall y | 0 <= y < GlyphHeight
      ensures grid[y * |text|..y * |text| + |text|] == GlyphRow(font, text, y)
    {
      forall c | 0 <= c < |text|
        ensures grid[y * |text|..y * |text| + |text|][c] == Cell(font, text, y, c)
      {
        CellIndex(y, c, |text|, GlyphHeight);
      }
    }
  }

  /** The record of a white row. */
  function BlankRecord(widthInBytes: nat): seq<byte>
  {
    [0] + Repeat(0xFF, widthInBytes)
  }

  /** A white row written without a previous row is the white record. */
  lemma {:induction false} BlankRecordIsWhiteRow(widthInBytes: nat)
    ensures Record(widthInBytes, Repeat(0xFF, widthInBytes), []) == BlankRecord(widthInBytes)
  {
    RecordLayout(widthInBytes, Repeat(0xFF, widthInBytes), []);
  }

  /** The 13 records the caption leaves in the row buffer: white, the 11 glyph rows (filter None), white. */
  function CaptionRecordList(widthInBytes: nat, font: Font, text: seq<CodeUnit>): (r: seq<seq<byte>>)
    requires WellFormedFont(font)
    ensures |r| == CaptionHeight
  {
    [BlankRecord(widthInBytes)]
    + seq(GlyphHeight, y requires 0 <= y < GlyphHeight => Record(widthInBytes, GlyphRow(font, text, y), []))
    + [BlankRecord(widthInBytes)]
  }

  function CaptionRecords(widthInBytes: nat, font: Font, text: seq<CodeUnit>): seq<byte>
    requires WellFormedFont(font)
  {
    Concat(CaptionRecordList(widthInBytes, font, text))
  }

  /**
   * Each caption record is a white row or a glyph row written with filter 0,
   * the glyph row centred in white when the image is wider than the text.
   * When the image has a byte per code unit, every caption record is one
   * scanline long, so the caption takes exactly 13 scanlines.
   */
  lemma {:induction false} CaptionRecordsShape(widthInBytes: nat, font: Font, text: seq<CodeUnit>)
    requires WellFormedFont(font)
    ensures forall j :: 0 <= j < CaptionHeight ==> CaptionRecordList(widthInBytes, font, text)[j][0] == 0
    ensures forall j :: 0 <= j < CaptionHeight ==> |CaptionRecordList(widthInBytes, font, text)[j]| >= widthInBytes + 1
    ensures |CaptionRecords(widthInBytes, font, text)| >= CaptionHeight * (widthInBytes + 1)
    ensures |text| <= widthInBytes ==>
      && (forall j :: 0 <= j < CaptionHeight ==> |CaptionRecordList(widthInBytes, font, text)[j]| == widthInBytes + 1)
      && |CaptionRecords(widthInBytes, font, text)| == CaptionHeight * (widthInBytes + 1)
  {
    var list := CaptionRecordList(widthInBytes, font, text);
    forall j | 0 <= j < CaptionHeight
      ensures list[j][0] == 0 && |list[j]| >= widthInBytes + 1
      ensures |text| <= widthInBytes ==> |list[j]| == widthInBytes + 1
    {
      if 1 <= j <= GlyphHeight {
        RecordLayout(widthInBytes, GlyphRow(font, text, j - 1), []);
      }
    }
    ConcatAtLeast(list, widthInBytes + 1);
    if |text| <= widthInBytes {
      ConcatUniformLength(list, widthInBytes + 1);
    }
  }

  /** The caption takes at least 13 scanlines' worth of bytes. */
  lemma {:induction false} CaptionLengthAtLeast(widthInBytes: nat, font: Font, text: seq<CodeUnit>)
    requires WellFormedFont(font)
    ensures |CaptionRecords(widthInBytes, font, text)| >= CaptionHeight * (widthInBytes + 1)
  {
    CaptionRecordsShape(widthInBytes, font, text);
  }

  /** Parts each at least `len` long add up to at least `|parts| * len`. */
  lemma {:induction false} ConcatAtLeast(parts: seq<seq<byte>>, len: nat)
    requires forall j :: 0 <= j < |parts| ==> |parts[j]| >= len
    ensures |Concat(parts)| >= |parts| * len
    decreases |parts|
  {
    if |parts| > 0 {
      ConcatAtLeast(parts[..|parts| - 1], len);
      assert |parts| * len == (|parts| - 1) * len + len;
    }
  }

  /** The bytes of `count` scanline records: a filter byte and `widthInBytes` pixels each. */
  function ScanlineBytes(widthInBytes: nat, count: nat): nat
  {
    (widthInBytes + 1) * count
  }

  /**
   * `Write`: reserves 13 rows with `EnsureBlankScanLines`, which may take
   * back trailing white rows, then writes a white row, the 11 glyph rows
   * (each a slice of the grid, with no previous row) and a white row. The
   * rows written are exactly the rows reserved, so `height - linesWritten`
   * is the same before and after, and `Finish` can follow.
   */
  method Write(pngImageWriter: PngImageWriter, text: string, font: Font) returns (outcome: Outcome)
    requires pngImageWriter.Valid()
    requires WellFormedFont(font)
    requires GlyphHeight * |Utf16(text)| <= MaxSpan
    requires pngImageWriter.height + CaptionHeight <= MaxSpan
    requires (pngImageWriter.widthInBytes + 1) * CaptionHeight <= MaxSpan
    modifies pngImageWriter, pngImageWriter.Stream, pngImageWriter.deflate
    ensures pngImageWriter.Valid()
    ensures old(pngImageWriter.toDeflateStream) == null <==> outcome == Failed(Disposed)
    ensures outcome == Failed(Disposed) ==> unchanged(pngImageWriter, pngImageWriter.Stream, pngImageWriter.deflate)
    ensures old(pngImageWriter.toDeflateStream) != null ==>
      var wib := pngImageWriter.widthInBytes;
      var k := RewindCount(old(pngImageWriter.blankLines), CaptionHeight);
      var start := old(pngImageWriter.deflate.position) - ScanlineBytes(wib, k);
      var caption := CaptionRecords(wib, font, Utf16(text));
      && pngImageWriter.height == old(pngImageWriter.height) + CaptionHeight - k
      && pngImageWriter.Stream.buffer == PatchBigEndian32(old(pngImageWriter.Stream.buffer), Int32Bits(pngImageWriter.height), HeightPosition)
      && pngImageWriter.Stream.position == old(pngImageWriter.Stream.position)
      && pngImageWriter.toDeflateStream == old(pngImageWriter.toDeflateStream)
      && (outcome == Done <==> start >= 0)
      && (outcome == Done ==>
           && pngImageWriter.linesWritten == old(pngImageWriter.linesWritten) - k + CaptionHeight
           && pngImageWriter.height - pngImageWriter.linesWritten == old(pngImageWriter.height - pngImageWriter.linesWritten)
           && pngImageWriter.deflate.buffer == Overwrite(old(pngImageWriter.deflate.buffer), start, caption)
           && pngImageWriter.deflate.position == start + |caption|
           && pngImageWriter.blankLines == 1)
      && (outcome.Failed? ==>
           && outcome == Failed(NegativePosition)
           && pngImageWriter.linesWritten == old(pngImageWriter.linesWritten) - k
           && pngImageWriter.deflate.buffer == old(pngImageWriter.deflate.buffer)
           && pngImageWriter.deflate.position == old(pngImageWriter.deflate.position))
  {
    outcome := pngImageWriter.EnsureBlankScanLines(13);
    if outcome.Failed? {
      return;
    }
    var units := Utf16(text);
    var grid := GlyphGrid(font, units);
    WriteCaptionRows(pngImageWriter, font, units, grid);
  }

  /** The 13 rows of the caption, written after `EnsureBlankScanLines(13)` has made room for them. */
  method WriteCaptionRows(pngImageWriter: PngImageWriter, font: Font, text: seq<CodeUnit>, grid: seq<byte>)
    requires pngImageWriter.Valid() && pngImageWriter.toDeflateStream != null
    requires pngImageWriter.linesWritten + CaptionHeight <= pngImageWriter.height
    requires WellFormedFont(font)
    requires |grid| == GlyphHeight * |text|
    requires forall y :: 0 <= y < GlyphHeight ==>
      grid[y * |text|..y * |text| + |text|] == GlyphRow(font, text, y)
    modifies pngImageWriter, pngImageWriter.deflate
    ensures pngImageWriter.Valid()
    ensures pngImageWriter.deflate.buffer
         == Overwrite(old(pngImageWriter.deflate.buffer), old(pngImageWriter.deflate.position),
                      CaptionRecords(pngImageWriter.widthInBytes, font, text))
    ensures pngImageWriter.deflate.position
         == old(pngImageWriter.deflate.position) + |CaptionRecords(pngImageWriter.widthInBytes, font, text)|
    ensures pngImageWriter.linesWritten == old(pngImageWriter.linesWritten) + CaptionHeight
    ensures pngImageWriter.blankLines == 1
    ensures pngImageWriter.height == old(pngImageWriter.height)
    ensures pngImageWriter.toDeflateStream == old(pngImageWriter.toDeflateStream)
    ensures unchanged(pngImageWriter.Stream)
  {
    ghost var wib := pngImageWriter.widthInBytes;
    ghost var base := pngImageWriter.deflate.buffer;
    ghost var start := pngImageWriter.deflate.position;
    ghost var list := CaptionRecordList(wib, font, text);
    assert list[..0] == [];
    BlankRecordIsWhiteRow(wib);
    WriteRowAfter(pngImageWriter, pngImageWriter.blankScanLine, base, start, list, 0);
    WriteGlyphRows(pngImageWriter, font, text, grid, base, start);
    WriteRowAfter(pngImageWriter, pngImageWriter.blankScanLine, base, start, list, 12);
    assert list[..13] == list;
    assert Concat(list) == CaptionRecords(wib, font, text);
  }

  /** The 11 glyph rows of the caption, records 1 to 11, after the white row above them. */
  method WriteGlyphRows(pngImageWriter: PngImageWriter, font: Font, text: seq<CodeUnit>, grid: seq<byte>,
                        ghost base: seq<byte>, ghost start: nat)
    requires pngImageWriter.Valid() && pngImageWriter.toDeflateStream != null
    requires pngImageWriter.linesWritten + GlyphHeight < pngImageWriter.height
    requires WellFormedFont(font)
    requires |grid| == GlyphHeight * |text|
    requires forall y :: 0 <= y < GlyphHeight ==>
      grid[y * |text|..y * |text| + |text|] == GlyphRow(font, text, y)
    requires start <= |base|
    requires pngImageWriter.deflate.buffer == Overwrite(base, start, Concat(CaptionRecordList(pngImageWriter.widthInBytes, font, text)[..1]))
    requires pngImageWriter.deflate.position == start + |Concat(CaptionRecordList(pngImageWriter.widthInBytes, font, text)[..1])|
    modifies pngImageWriter, pngImageWriter.deflate
    ensures pngImageWriter.Valid() && pngImageWriter.toDeflateStream == old(pngImageWriter.toDeflateStream)
    ensures pngImageWriter.linesWritten == old(pngImageWriter.linesWritten) + GlyphHeight
    ensures pngImageWriter.height == old(pngImageWriter.height)
    ensures pngImageWriter.deflate.buffer == Overwrite(base, start, Concat(CaptionRecordList(pngImageWriter.widthInBytes, font, text)[..12]))
    ensures pngImageWriter.deflate.position == start + |Concat(CaptionRecordList(pngImageWriter.widthInBytes, font, text)[..12])|
    ensures unchanged(pngImageWriter.Stream)
  {
    ghost var list := CaptionRecordList(pngImageWriter.widthInBytes, font, text);
    for i := 0 to GlyphHeight
      invariant pngImageWriter.Valid() && pngImageWriter.toDeflateStream == old(pngImageWriter.toDeflateStream)
      invariant pngImageWriter.linesWritten == old(pngImageWriter.linesWritten) + i
      invariant pngImageWriter.height == old(pngImageWriter.height)
      invariant pngImageWriter.deflate.buffer == Overwrite(base, start, Concat(list[..1 + i]))
      invariant pngImageWriter.deflate.position == start + |Concat(list[..1 + i])|
      invariant unchanged(pngImageWriter.Stream)
    {
      GlyphRowOfGrid(font, text, grid, i);
      CaptionRecordAt(pngImageWriter.widthInBytes, font, text, i);
      WriteGlyphRow(pngImageWriter, font, text, grid, base, start, list, i);
    }
  }

  /** Writes row `y` of the glyph grid, which is record `1 + y` of the caption. */
  method WriteGlyphRow(pngImageWriter: PngImageWriter, font: Font, text: seq<CodeUnit>, grid: seq<byte>,
                       ghost base: seq<byte>, ghost start: nat, ghost list: seq<seq<byte>>, y: nat)
    requires pngImageWriter.Valid() && pngImageWriter.toDeflateStream != null
    requires pngImageWriter.linesWritten < pngImageWriter.height
    requires WellFormedFont(font) && y < GlyphHeight
    requires |text| * y + |text| <= |grid|
    requires grid[|text| * y..|text| * y + |text|] == GlyphRow(font, text, y)
    requires start <= |base|
    requires 1 + y < |list| && list[1 + y] == Record(pngImageWriter.widthInBytes, GlyphRow(font, text, y), [])
    requires pngImageWriter.deflate.buffer == Overwrite(base, start, Concat(list[..1 + y]))
    requires pngImageWriter.deflate.position == start + |Concat(list[..1 + y])|
    modifies pngImageWriter, pngImageWriter.deflate
    ensures pngImageWriter.Valid() && pngImageWriter.toDeflateStream == old(pngImageWriter.toDeflateStream)
    ensures pngImageWriter.linesWritten == old(pngImageWriter.linesWritten) + 1
    ensures pngImageWriter.height == old(pngImageWriter.height)
    ensures pngImageWriter.deflate.buffer == Overwrite(base, start, Concat(list[..1 + y + 1]))
    ensures pngImageWriter.deflate.position == start + |Concat(list[..1 + y + 1])|
    ensures unchanged(pngImageWriter.Stream)
  {
    var row := grid[|text| * y..|text| * y + |text|];
    WriteRowAfter(pngImageWriter, row, base, start, list, 1 + y);
  }

  /** Record `1 + y` of the caption is glyph row `y`. */
  lemma {:induction false} CaptionRecordAt(widthInBytes: nat, font: Font, text: seq<CodeUnit>, y: nat)
    requires WellFormedFont(font) && y < GlyphHeight
    ensures CaptionRecordList(widthInBytes, font, text)[1 + y] == Record(widthInBytes, GlyphRow(font, text, y), [])
  {
  }

  /** Row `y` of the glyph grid, where `GlyphGrid` put it. */
  lemma {:induction false} GlyphRowOfGrid(font: Font, text: seq<CodeUnit>, grid: seq<byte>, y: nat)
    requires WellFormedFont(font) && y < GlyphHeight
    requires |grid| == GlyphHeight * |text|
    requires forall y :: 0 <= y < GlyphHeight ==>
      grid[y * |text|..y * |text| + |text|] == GlyphRow(font, text, y)
    ensures 0 <= |text| * y && |text| * y + |text| <= |grid|
    ensures grid[|text| * y..|text| * y + |text|] == GlyphRow(font, text, y)
  {
    RowOfGrid(y, |text|);
  }

  /**
   * One `WriteLine` with no previous row while the caption is being written:
   * record `n` of the caption goes right after the `n` before it.
   */
  method WriteRowAfter(pngImageWriter: PngImageWriter, row: seq<byte>,
                       ghost base: seq<byte>, ghost start: nat, ghost list: seq<seq<byte>>, ghost n: nat)
    requires pngImageWriter.Valid() && pngImageWriter.toDeflateStream != null
    requires pngImageWriter.linesWritten < pngImageWriter.height
    requires start <= |base| && n < |list|
    requires list[n] == Record(pngImageWriter.widthInBytes, row, [])
    requires pngImageWriter.deflate.buffer == Overwrite(base, start, Concat(list[..n]))
    requires pngImageWriter.deflate.position == start + |Concat(list[..n])|
    modifies pngImageWriter, pngImageWriter.deflate
    ensures pngImageWriter.Valid() && pngImageWriter.toDeflateStream == old(pngImageWriter.toDeflateStream)
    ensures pngImageWriter.linesWritten == old(pngImageWriter.linesWritten) + 1
    ensures pngImageWriter.height == old(pngImageWriter.height)
    ensures pngImageWriter.blankLines == NextBlankLines(old(pngImageWriter.blankLines), pngImageWriter.widthInBytes, row, [])
    ensures pngImageWriter.deflate.buffer == Overwrite(base, start, Concat(list[..n + 1]))
    ensures pngImageWriter.deflate.position == start + |Concat(list[..n + 1])|
    ensures unchanged(pngImageWriter.Stream)
  {
    ghost var before := pngImageWriter.deflate.buffer;
    ghost var at := pngImageWriter.deflate.position;
    var outcome := pngImageWriter.WriteLineWithoutPrevious(row);
    OverwriteNextPart(base, start, list, n, before, at);
  }
}

/**
 * The ancillary text chunks of src/TextualInformation.cs: the choice between
 * tEXt, zTXt and iTXt for one text field, the payload layout of each (section
 * 11.3.4 of the PNG specification, third edition), and the ordered list of
 * chunks for the present fields.
 *
 * The Latin-1 and UTF-8 encoders and the zlib compressor are the functions of
 * `Codecs`. A field's keyword is the name of the property holding it.
 */
module TextChunks {
  import opened Streams
  import opened Collaborators

  /** The text of one field and how to store it. */
  datatype TextData = TextData(text: string, compress: bool, utf8: bool)

  /** The ten optional fields, in their declared order. */
  datatype TextualInformation = TextualInformation(
    title: Option<TextData>,
    author: Option<TextData>,
    description: Option<TextData>,
    copyright: Option<TextData>,
    creationTime: Option<TextData>,
    software: Option<TextData>,
    disclaimer: Option<TextData>,
    warning: Option<TextData>,
    source: Option<TextData>,
    comment: Option<TextData>)

  /** A chunk to be written: its four type bytes and its payload. */
  datatype Block = Block(chunkType: seq<byte>, data: seq<byte>)

  /** The chunk type codes "tEXt", "zTXt" and "iTXt". */
  const TEXT: seq<byte> := [0x74, 0x45, 0x58, 0x74]
  const ZTXT: seq<byte> := [0x7A, 0x54, 0x58, 0x74]
  const ITXT: seq<byte> := [0x69, 0x54, 0x58, 0x74]

  /** UTF-8 takes precedence over compression: a UTF-8 field is iTXt whether or not it is compressed. */
  function GetTypeBytes(t: TextData): (r: seq<byte>)
    ensures |r| == 4
    ensures t.utf8 <==> r == ITXT
    ensures !t.utf8 && t.compress <==> r == ZTXT
    ensures !t.utf8 && !t.compress <==> r == TEXT
  {
    if t.utf8 then ITXT
    else if t.compress then ZTXT
    else TEXT
  }

  /** A zeroed buffer of `size` bytes with `src` copied in at `offset` (`CopyTo`). */
  function CopyTo(dest: seq<byte>, src: seq<byte>, offset: nat): (r: seq<byte>)
    requires offset + |src| <= |dest|
    ensures |r| == |dest|
    ensures r[offset..offset + |src|] == src
    ensures forall i :: 0 <= i < |dest| && !(offset <= i < offset + |src|) ==> r[i] == dest[i]
  {
    Overwrite(dest, offset, src)
  }

  /** A sequence cut into three consecutive pieces is their concatenation. */
  lemma {:induction false} JoinThree(s: seq<byte>, a: seq<byte>, b: seq<byte>, c: seq<byte>)
    requires |s| == |a| + |b| + |c|
    requires s[..|a|] == a && s[|a|..|a| + |b|] == b && s[|a| + |b|..] == c
    ensures s == a + b + c
  {
    assert s == s[..|a|] + s[|a|..|a| + |b|] + s[|a| + |b|..];
  }

  /** tEXt: the Latin-1 keyword, a zero separator, the Latin-1 text. */
  function GettEXtData(codecs: Codecs, t: TextData, keyword: string): (r: seq<byte>)
    ensures r == codecs.latin1(keyword) + [0] + codecs.latin1(t.text)
  {
    var keywordBytes := codecs.latin1(keyword);
    var encoded := codecs.latin1(t.text);
    var data := Repeat(0, |keywordBytes| + |encoded| + 1);
    var data1 := CopyTo(data, keywordBytes, 0);
    var data2 := CopyTo(data1, encoded, |keywordBytes| + 1);
    assert data2[..|keywordBytes|] == keywordBytes by {
      assert data2[..|keywordBytes|] == data1[..|keywordBytes|];
    }
    assert data2[|keywordBytes|] == 0;
    assert data2 == data2[..|keywordBytes|] + [data2[|keywordBytes|]] + data2[|keywordBytes| + 1..];
    data2
  }

  /** zTXt: the Latin-1 keyword, a zero separator, compression method 0 (zlib), the compressed Latin-1 text. */
  function GetzTXtData(codecs: Codecs, t: TextData, keyword: string): (r: seq<byte>)
    ensures r == codecs.latin1(keyword) + [0, 0] + codecs.zlib(codecs.latin1(t.text))
  {
    var latin1Text := codecs.latin1(t.text);
    var compressed := codecs.zlib(latin1Text);
    var keywordBytes := codecs.latin1(keyword);
    var data := Repeat(0, |keywordBytes| + |compressed| + 2);
    var data1 := CopyTo(data, keywordBytes, 0);
    var data2 := CopyTo(data1, compressed, |keywordBytes| + 2);
    assert data2[..|keywordBytes|] == keywordBytes by {
      assert data2[..|keywordBytes|] == data1[..|keywordBytes|];
    }
    assert data2[|keywordBytes|] == 0 && data2[|keywordBytes| + 1] == 0;
    assert data2 == data2[..|keywordBytes|] + [data2[|keywordBytes|], data2[|keywordBytes| + 1]] + data2[|keywordBytes| + 2..];
    data2
  }

  /** The compression flag byte of an iTXt payload. */
  function CompressionFlag(compress: bool): byte
  {
    if compress then 1 else 0
  }

  /**
   * iTXt: the Latin-1 keyword, a zero separator, the compression flag,
   * compression method 0, an empty language tag and an empty translated
   * keyword (each ended by a zero), then the UTF-8 text, compressed when the
   * flag is set.
   */
  function GetiTXtData(codecs: Codecs, t: TextData, keyword: string): (r: seq<byte>)
    ensures r == codecs.latin1(keyword) + [0, CompressionFlag(t.compress), 0, 0, 0]
              + (if t.compress then codecs.zlib(codecs.utf8(t.text)) else codecs.utf8(t.text))
  {
    var keywordBytes := codecs.latin1(keyword);
    var utf8Text := codecs.utf8(t.text);
    var finalText := if t.compress then codecs.zlib(utf8Text) else utf8Text;
    var k := |keywordBytes|;
    var data := Repeat(0, k + |finalText| + 5);
    var data1 := CopyTo(data, keywordBytes, 0);
    var data2 := CopyTo(data1, finalText, k + 5);
    var data3 := data2[k + 1 := CompressionFlag(t.compress)];
    assert data3[..k] == keywordBytes by {
      assert data3[..k] == data2[..k] == data1[..k];
    }
    assert data3[k + 5..] == finalText by {
      assert data3[k + 5..] == data2[k + 5..];
    }
    assert data2[k] == 0 && data2[k + 2] == 0 && data2[k + 3] == 0 && data2[k + 4] == 0 by {
      assert data1[k] == 0 && data1[k + 2] == 0 && data1[k + 3] == 0 && data1[k + 4] == 0;
    }
    assert data3[k..k + 5] == [0, CompressionFlag(t.compress), 0, 0, 0];
    JoinThree(data3, keywordBytes, [0, CompressionFlag(t.compress), 0, 0, 0], finalText);
    data3
  }

  /** The payload of a field, chosen with the same precedence as its type. */
  function GetDataBytes(codecs: Codecs, t: TextData, keyword: string): (r: seq<byte>)
  {
    if t.utf8 then GetiTXtData(codecs, t, keyword)
    else if t.compress then GetzTXtData(codecs, t, keyword)
    else GettEXtData(codecs, t, keyword)
  }

  /**
   * The chunk type and the payload of a field agree: a tEXt block carries the
   * plain layout, a zTXt block the compressed one and an iTXt block the
   * international one.
   */
  lemma {:induction false} TypeMatchesPayload(codecs: Codecs, t: TextData, keyword: string)
    ensures GetTypeBytes(t) == TEXT ==> GetDataBytes(codecs, t, keyword) == codecs.latin1(keyword) + [0] + codecs.latin1(t.text)
    ensures GetTypeBytes(t) == ZTXT ==> GetDataBytes(codecs, t, keyword) == codecs.latin1(keyword) + [0, 0] + codecs.zlib(codecs.latin1(t.text))
    ensures GetTypeBytes(t) == ITXT ==> GetDataBytes(codecs, t, keyword)
                                        == codecs.latin1(keyword) + [0, CompressionFlag(t.compress), 0, 0, 0]
                                           + (if t.compress then codecs.zlib(codecs.utf8(t.text)) else codecs.utf8(t.text))
  {
  }

  /** Whichever layout is chosen, the payload starts with the keyword and the zero that ends it. */
  lemma {:induction false} KeywordIsPrefix(codecs: Codecs, t: TextData, keyword: string)
    ensures codecs.latin1(keyword) + [0] <= GetDataBytes(codecs, t, keyword)
  {
    var kw := codecs.latin1(keyword);
    var data := GetDataBytes(codecs, t, keyword);
    assert data[..|kw| + 1] == kw + [0];
  }

  /**
   * The size of the array each layout allocates: the keyword, the framing
   * bytes (one for tEXt, two for zTXt, five for iTXt) and the stored text.
   */
  lemma {:induction false} PayloadLength(codecs: Codecs, t: TextData, keyword: string)
    ensures |GetDataBytes(codecs, t, keyword)|
         == |codecs.latin1(keyword)|
          + (if t.utf8 then 5 + |if t.compress then codecs.zlib(codecs.utf8(t.text)) else codecs.utf8(t.text)|
             else if t.compress then 2 + |codecs.zlib(codecs.latin1(t.text))|
             else 1 + |codecs.latin1(t.text)|)
  {
  }

  /** `GetTypeAndData` for a field whose property name is `keyword`. */
  function GetTypeAndData(codecs: Codecs, t: TextData, keyword: string): Block
  {
    Block(GetTypeBytes(t), GetDataBytes(codecs, t, keyword))
  }

  /** The block of a present field, none for an absent one. */
  function BlockIfPresent(codecs: Codecs, field: Option<TextData>, keyword: string): seq<Block>
  {
    if field.Some? then [GetTypeAndData(codecs, field.value, keyword)] else []
  }

  /** `GetDataBlocks`: one block per present field, in declared order. */
  function GetDataBlocks(codecs: Codecs, info: TextualInformation): (r: seq<Block>)
  {
    BlockIfPresent(codecs, info.title, "Title")
    + BlockIfPresent(codecs, info.author, "Author")
    + BlockIfPresent(codecs, info.description, "Description")
    + BlockIfPresent(codecs, info.copyright, "Copyright")
    + BlockIfPresent(codecs, info.creationTime, "CreationTime")
    + BlockIfPresent(codecs, info.software, "Software")
    + BlockIfPresent(codecs, info.disclaimer, "Disclaimer")
    + BlockIfPresent(codecs, info.warning, "Warning")
    + BlockIfPresent(codecs, info.source, "Source")
    + BlockIfPresent(codecs, info.comment, "Comment")
  }

  // ---------------------------------------------------------------------
  // Reference definitions

  /** The fields as (keyword, value) entries, in declared order. */
  function Entries(info: TextualInformation): seq<(string, Option<TextData>)>
  {
    [("Title", info.title), ("Author", info.author), ("Description", info.description),
     ("Copyright", info.copyright), ("CreationTime", info.creationTime), ("Software", info.software),
     ("Disclaimer", info.disclaimer), ("Warning", info.warning), ("Source", info.source),
     ("Comment", info.comment)]
  }

  /** Walks the first `n` entries in order and yields the block of each present one. */
  function BlocksOfEntries(codecs: Codecs, entries: seq<(string, Option<TextData>)>, n: nat): seq<Block>
    requires n <= |entries|
  {
    if n == 0 then []
    else BlocksOfEntries(codecs, entries, n - 1) + BlockIfPresent(codecs, entries[n - 1].1, entries[n - 1].0)
  }

  /**
   * `GetDataBlocks` walks the fields in the declared order Title, Author,
   * Description, Copyright, CreationTime, Software, Disclaimer, Warning,
   * Source, Comment and yields one block for each present one, keyed by its
   * name.
   */
  lemma {:induction false} GetDataBlocksFollowsDeclaredOrder(codecs: Codecs, info: TextualInformation)
    ensures GetDataBlocks(codecs, info) == BlocksOfEntries(codecs, Entries(info), 10)
  {
    var e := Entries(info);
    EntriesInOrder(info);
    var b := BlocksOfEntries(codecs, e, 10);
    var prefix := BlocksOfEntries(codecs, e, 9);
    WalkThroughNine(codecs, info);
    assert b == prefix + BlockIfPresent(codecs, info.comment, "Comment");
  }

  lemma {:induction false} EntriesInOrder(info: TextualInformation)
    ensures |Entries(info)| == 10
    ensures Entries(info)[0] == ("Title", info.title)
    ensures Entries(info)[1] == ("Author", info.author)
    ensures Entries(info)[2] == ("Description", info.description)
    ensures Entries(info)[3] == ("Copyright", info.copyright)
    ensures Entries(info)[4] == ("CreationTime", info.creationTime)
    ensures Entries(info)[5] == ("Software", info.software)
    ensures Entries(info)[6] == ("Disclaimer", info.disclaimer)
    ensures Entries(info)[7] == ("Warning", info.warning)
    ensures Entries(info)[8] == ("Source", info.source)
    ensures Entries(info)[9] == ("Comment", info.comment)
  {
  }

  lemma {:induction false} WalkThroughFive(codecs: Codecs, info: TextualInformation)
    ensures |Entries(info)| == 10
    ensures BlocksOfEntries(codecs, Entries(info), 5)
         == BlockIfPresent(codecs, info.title, "Title")
          + BlockIfPresent(codecs, info.author, "Author")
          + BlockIfPresent(codecs, info.description, "Description")
          + BlockIfPresent(codecs, info.copyright, "Copyright")
          + BlockIfPresent(codecs, info.creationTime, "CreationTime")
  {
    var e := Entries(info);
    EntriesInOrder(info);
    assert BlocksOfEntries(codecs, e, 1) == BlockIfPresent(codecs, info.title, "Title");
    assert BlocksOfEntries(codecs, e, 2) == BlocksOfEntries(codecs, e, 1) + BlockIfPresent(codecs, info.author, "Author");
    assert BlocksOfEntries(codecs, e, 3) == BlocksOfEntries(codecs, e, 2) + BlockIfPresent(codecs, info.description, "Description");
    assert BlocksOfEntries(codecs, e, 4) == BlocksOfEntries(codecs, e, 3) + BlockIfPresent(codecs, info.copyright, "Copyright");
  }

  lemma {:induction false} WalkThroughNine(codecs: Codecs, info: TextualInformation)
    ensures |Entries(info)| == 10
    ensures BlocksOfEntries(codecs, Entries(info), 9)
         == BlockIfPresent(codecs, info.title, "Title")
          + BlockIfPresent(codecs, info.author, "Author")
          + BlockIfPresent(codecs, info.description, "Description")
          + BlockIfPresent(codecs, info.copyright, "Copyright")
          + BlockIfPresent(codecs, info.creationTime, "CreationTime")
          + BlockIfPresent(codecs, info.software, "Software")
          + BlockIfPresent(codecs, info.disclaimer, "Disclaimer")
          + BlockIfPresent(codecs, info.warning, "Warning")
          + BlockIfPresent(codecs, info.source, "Source")
  {
    var e := Entries(info);
    EntriesInOrder(info);
    WalkThroughFive(codecs, info);
    assert BlocksOfEntries(codecs, e, 6) == BlocksOfEntries(codecs, e, 5) + BlockIfPresent(codecs, info.software, "Software");
    assert BlocksOfEntries(codecs, e, 7) == BlocksOfEntries(codecs, e, 6) + BlockIfPresent(codecs, info.disclaimer, "Disclaimer");
    assert BlocksOfEntries(codecs, e, 8) == BlocksOfEntries(codecs, e, 7) + BlockIfPresent(codecs, info.warning, "Warning");
  }

  /** The number of present entries among the first `n`. */
  function CountPresent(entries: seq<(string, Option<TextData>)>, n: nat): nat
    requires n <= |entries|
  {
    if n == 0 then 0 else CountPresent(entries, n - 1) + (if entries[n - 1].1.Some? then 1 else 0)
  }

  /** The walk yields exactly one block per present entry, each with the type its field selects. */
  lemma {:induction false} BlocksOfEntriesCount(codecs: Codecs, entries: seq<(string, Option<TextData>)>, n: nat)
    requires n <= |entries|
    ensures |BlocksOfEntries(codecs, entries, n)| == CountPresent(entries, n)
    ensures forall b :: b in BlocksOfEntries(codecs, entries, n) ==> b.chunkType in {TEXT, ZTXT, ITXT}
  {
    if n > 0 {
      BlocksOfEntriesCount(codecs, entries, n - 1);
    }
  }

  /**
   * Where each field's block sits: present entry `j` yields the block at
   * index `CountPresent(entries, j)`, the number of present entries before
   * it, and there are no other blocks.
   */
  lemma {:induction false} BlocksOfEntriesIndex(codecs: Codecs, entries: seq<(string, Option<TextData>)>, n: nat)
    requires n <= |entries|
    ensures |BlocksOfEntries(codecs, entries, n)| == CountPresent(entries, n)
    ensures forall j :: 0 <= j < n && entries[j].1.Some? ==>
      && CountPresent(entries, j) < |BlocksOfEntries(codecs, entries, n)|
      && BlocksOfEntries(codecs, entries, n)[CountPresent(entries, j)]
         == GetTypeAndData(codecs, entries[j].1.value, entries[j].0)
  {
    BlocksOfEntriesLength(codecs, entries, n);
    forall j | 0 <= j < n && entries[j].1.Some?
      ensures CountPresent(entries, j) < |BlocksOfEntries(codecs, entries, n)|
      ensures BlocksOfEntries(codecs, entries, n)[CountPresent(entries, j)]
           == GetTypeAndData(codecs, entries[j].1.value, entries[j].0)
    {
      BlockOfEntryAt(codecs, entries, n, j);
    }
  }

  /** The walk yields one block per present entry. */
  lemma {:induction false} BlocksOfEntriesLength(codecs: Codecs, entries: seq<(string, Option<TextData>)>, n: nat)
    requires n <= |entries|
    ensures |BlocksOfEntries(codecs, entries, n)| == CountPresent(entries, n)
  {
    if n > 0 {
      BlocksOfEntriesLength(codecs, entries, n - 1);
    }
  }

  /** The block of present entry `j` among the first `n`. */
  lemma {:induction false} BlockOfEntryAt(codecs: Codecs, entries: seq<(string, Option<TextData>)>, n: nat, j: nat)
    requires j < n <= |entries| && entries[j].1.Some?
    ensures CountPresent(entries, j) < |BlocksOfEntries(codecs, entries, n)|
    ensures BlocksOfEntries(codecs, entries, n)[CountPresent(entries, j)]
         == GetTypeAndData(codecs, entries[j].1.value, entries[j].0)
  {
    var parts := EntryBlocks(codecs, entries);
    BlocksOfEntriesJoined(codecs, entries, n);
    BlocksOfEntriesJoined(codecs, entries, j);
    BlocksOfEntriesLength(codecs, entries, j);
    JoinedIndex(parts, n, j);
  }

  /** The blocks each entry contributes, one sequence per entry. */
  function EntryBlocks(codecs: Codecs, entries: seq<(string, Option<TextData>)>): (parts: seq<seq<Block>>)
    ensures |parts| == |entries|
    ensures forall k :: 0 <= k < |entries| ==> parts[k] == BlockIfPresent(codecs, entries[k].1, entries[k].0)
  {
    seq(|entries|, k requires 0 <= k < |entries| => BlockIfPresent(codecs, entries[k].1, entries[k].0))
  }

  /** The first `n` parts, one after the other. */
  function Joined<T>(parts: seq<seq<T>>, n: nat): seq<T>
    requires n <= |parts|
  {
    if n == 0 then [] else Joined(parts, n - 1) + parts[n - 1]
  }

  /** The walk over the entries joins the blocks each entry contributes. */
  lemma {:induction false} BlocksOfEntriesJoined(codecs: Codecs, entries: seq<(string, Option<TextData>)>, n: nat)
    requires n <= |entries|
    ensures BlocksOfEntries(codecs, entries, n) == Joined(EntryBlocks(codecs, entries), n)
  {
    if n > 0 {
      BlocksOfEntriesJoined(codecs, entries, n - 1);
    }
  }

  /** A non-empty part `j` starts right after the parts before it. */
  lemma {:induction false} JoinedIndex<T>(parts: seq<seq<T>>, n: nat, j: nat)
    requires j < n <= |parts| && |parts[j]| > 0
    ensures |Joined(parts, j)| < |Joined(parts, n)|
    ensures Joined(parts, n)[|Joined(parts, j)|] == parts[j][0]
  {
    if j < n - 1 {
      JoinedIndex(parts, n - 1, j);
    }
  }

  /** A present entry comes before every later entry in the count, so the blocks keep the entries' order. */
  lemma {:induction false} CountPresentIncreasing(entries: seq<(string, Option<TextData>)>, j: nat, k: nat)
    requires j < k <= |entries| && entries[j].1.Some?
    ensures CountPresent(entries, j) < CountPresent(entries, k)
    decreases k
  {
    if k > j + 1 {
      CountPresentIncreasing(entries, j, k - 1);
    }
  }

  /**
   * The blocks of `GetDataBlocks`: one for each present field and no other,
   * the field in declared position `j` at index `CountPresent(Entries(info), j)`,
   * keyed by its property name, so a field before another in the declaration
   * has its block before the other's.
   */
  lemma {:induction false} GetDataBlocksIndex(codecs: Codecs, info: TextualInformation)
    ensures |Entries(info)| == 10
    ensures |GetDataBlocks(codecs, info)| == CountPresent(Entries(info), 10)
    ensures forall j :: 0 <= j < 10 && Entries(info)[j].1.Some? ==>
      && CountPresent(Entries(info), j) < |GetDataBlocks(codecs, info)|
      && GetDataBlocks(codecs, info)[CountPresent(Entries(info), j)]
         == GetTypeAndData(codecs, Entries(info)[j].1.value, Entries(info)[j].0)
    ensures forall j, k :: 0 <= j < k < 10 && Entries(info)[j].1.Some? ==>
      CountPresent(Entries(info), j) < CountPresent(Entries(info), k)
  {
    EntriesInOrder(info);
    GetDataBlocksFollowsDeclaredOrder(codecs, info);
    BlocksOfEntriesIndex(codecs, Entries(info), 10);
    forall j, k | 0 <= j < k < 10 && Entries(info)[j].1.Some?
      ensures CountPresent(Entries(info), j) < CountPresent(Entries(info), k)
    {
      CountPresentIncreasing(Entries(info), j, k);
    }
  }

  // ---------------------------------------------------------------------
  // Reading a payload back

  /** The bytes before the first zero, and the bytes after it. */
  function SplitAtNull(s: seq<byte>): (r: (seq<byte>, seq<byte>))
    ensures 0 !in r.0
    ensures 0 in s ==> |r.0| + 1 + |r.1| == |s| && s == r.0 + [0] + r.1
    ensures 0 !in s ==> r == (s, [])
  {
    if |s| == 0 then ([], [])
    else if s[0] == 0 then ([], s[1..])
    else
      var rest := SplitAtNull(s[1..]);
      assert s == [s[0]] + s[1..];
      ([s[0]] + rest.0, rest.1)
  }

  lemma {:induction false} SplitAtNullOfPrefix(prefix: seq<byte>, rest: seq<byte>)
    requires 0 !in prefix
    ensures SplitAtNull(prefix + [0] + rest) == (prefix, rest)
    decreases |prefix|
  {
    if |prefix| > 0 {
      var s := prefix + [0] + rest;
      assert s[0] == prefix[0] && prefix[0] != 0;
      assert s[1..] == prefix[1..] + [0] + rest;
      assert 0 !in prefix[1..];
      SplitAtNullOfPrefix(prefix[1..], rest);
      assert [prefix[0]] + prefix[1..] == prefix;
    } else {
      assert prefix + [0] + rest == [0] + rest;
    }
  }

  /**
   * A reader that splits a tEXt payload at its first zero gets the keyword
   * and the text back, when the keyword's encoding has no zero byte (PNG
   * keywords never have one).
   */
  lemma {:induction false} TextPayloadRoundTrip(codecs: Codecs, t: TextData, keyword: string)
    requires 0 !in codecs.latin1(keyword)
    ensures SplitAtNull(GettEXtData(codecs, t, keyword)) == (codecs.latin1(keyword), codecs.latin1(t.text))
  {
    SplitAtNullOfPrefix(codecs.latin1(keyword), codecs.latin1(t.text));
  }

  /** The same for zTXt: after the keyword come the method byte 0 and the compressed text. */
  lemma {:induction false} CompressedPayloadRoundTrip(codecs: Codecs, t: TextData, keyword: string)
    requires 0 !in codecs.latin1(keyword)
    ensures SplitAtNull(GetzTXtData(codecs, t, keyword))
         == (codecs.latin1(keyword), [0] + codecs.zlib(codecs.latin1(t.text)))
  {
    var kw := codecs.latin1(keyword);
    var tail := [0] + codecs.zlib(codecs.latin1(t.text));
    assert GetzTXtData(codecs, t, keyword) == kw + [0] + tail;
    SplitAtNullOfPrefix(kw, tail);
  }

  /**
   * The same for iTXt: after the keyword come the compression flag, method 0,
   * the ends of the empty language tag and translated keyword, and the text.
   */
  lemma {:induction false} InternationalPayloadRoundTrip(codecs: Codecs, t: TextData, keyword: string)
    requires 0 !in codecs.latin1(keyword)
    ensures SplitAtNull(GetiTXtData(codecs, t, keyword))
         == (codecs.latin1(keyword),
             [CompressionFlag(t.compress), 0, 0, 0]
             + (if t.compress then codecs.zlib(codecs.utf8(t.text)) else codecs.utf8(t.text)))
  {
    var kw := codecs.latin1(keyword);
    var tail := [CompressionFlag(t.compress), 0, 0, 0]
      + (if t.compress then codecs.zlib(codecs.utf8(t.text)) else codecs.utf8(t.text));
    assert GetiTXtData(codecs, t, keyword) == kw + [0] + tail;
    SplitAtNullOfPrefix(kw, tail);
  }

  /**
   * A block read back: its type is one of the three text chunk types, and a
   * reader splitting its payload at the first zero finds the property name
   * the block is keyed by, followed by the rest of the layout its type names.
   */
  lemma {:induction false} TypeAndDataReadBack(codecs: Codecs, t: TextData, keyword: string)
    requires 0 !in codecs.latin1(keyword)
    ensures GetTypeAndData(codecs, t, keyword).chunkType in {TEXT, ZTXT, ITXT}
    ensures SplitAtNull(GetTypeAndData(codecs, t, keyword).data).0 == codecs.latin1(keyword)
    ensures GetTypeAndData(codecs, t, keyword).chunkType == TEXT ==>
      SplitAtNull(GetTypeAndData(codecs, t, keyword).data).1 == codecs.latin1(t.text)
    ensures GetTypeAndData(codecs, t, keyword).chunkType == ZTXT ==>
      SplitAtNull(GetTypeAndData(codecs, t, keyword).data).1 == [0] + codecs.zlib(codecs.latin1(t.text))
    ensures GetTypeAndData(codecs, t, keyword).chunkType == ITXT ==>
      SplitAtNull(GetTypeAndData(codecs, t, keyword).data).1
      == [CompressionFlag(t.compress), 0, 0, 0] + (if t.compress then codecs.zlib(codecs.utf8(t.text)) else codecs.utf8(t.text))
  {
    if t.utf8 {
      InternationalPayloadRoundTrip(codecs, t, keyword);
    } else if t.compress {
      CompressedPayloadRoundTrip(codecs, t, keyword);
    } else {
      TextPayloadRoundTrip(codecs, t, keyword);
    }
  }
}

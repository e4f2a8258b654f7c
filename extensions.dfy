/**
 * Bit and byte transforms of src/Extensions.cs: big-endian serialisation
 * into a stream, an in-place big-endian patch of a byte buffer, per-byte bit
 * reversal, complement of byte and int buffers, 32-bit byte swap and full
 * 32-bit bit reversal.
 *
 * Each buffer operation runs a vector prefix (AVX2 or SSE2, when the host has
 * it) and then a scalar loop over the rest. The host's capability is the
 * parameter `simd`; a vector instruction is modelled lane by lane, and every
 * method is proved to give the scalar result whichever prefix ran.
 * The host is little-endian (`BitConverter.IsLittleEndian` holds).
 */
module Extensions {
  import opened Streams

  /** Which vector instruction set the host reports (`Avx2.IsSupported`, else `Sse2.IsSupported`). */
  datatype Simd = Avx2 | Sse2 | NoVectors

  // ---------------------------------------------------------------------
  // Bits

  /** Bit `i` of a byte, counting from the least significant. */
  predicate BitOf8(b: byte, i: bv8)
    requires i < 8
  {
    (b >> i) & 1 == 1
  }

  /** Bit `i` of a 32-bit word, counting from the least significant. */
  predicate BitOf32(w: bv32, i: bv32)
    requires i < 32
  {
    (w >> i) & 1 == 1
  }

  // ---------------------------------------------------------------------
  // 32- and 64-bit values and their byte layouts

  /**
   * The low 32 bits of the binary expansion of `n`, built one bit at a time:
   * bit `i` of the result is bit `i` of `n`.
   */
  function LowBits32(n: nat): bv32
    decreases n
  {
    if n == 0 then 0 else (LowBits32(n / 2) << 1) | (if n % 2 == 1 then 1 else 0)
  }

  /** The two's-complement bit pattern of a C# `int`, which is also what a cast to `uint` keeps. */
  function Int32Bits(v: int): bv32
    requires -0x8000_0000 <= v < 0x8000_0000
  {
    if v < 0 then LowBits32(v + 0x1_0000_0000) else LowBits32(v)
  }

  /** The two's-complement bit pattern of a C# `long`. */
  function Int64Bits(v: int): bv64
    requires -0x8000_0000_0000_0000 <= v < 0x8000_0000_0000_0000
  {
    if v < 0 then (v + 0x1_0000_0000_0000_0000) as bv64 else v as bv64
  }

  /** The bytes of a 32-bit value in the memory of a little-endian host. */
  function LittleEndian32(v: bv32): (r: seq<byte>)
    ensures |r| == 4
  {
    [(v & 0xFF) as byte, ((v >> 8) & 0xFF) as byte, ((v >> 16) & 0xFF) as byte, (v >> 24) as byte]
  }

  /** Reads a 32-bit value stored least significant byte first. */
  function FromLittleEndian32(b: seq<byte>): bv32
    requires |b| == 4
  {
    (b[0] as bv32) | ((b[1] as bv32) << 8) | ((b[2] as bv32) << 16) | ((b[3] as bv32) << 24)
  }

  lemma {:induction false} LittleEndian32RoundTrip(v: bv32, b: seq<byte>)
    requires |b| == 4
    ensures FromLittleEndian32(LittleEndian32(v)) == v
    ensures LittleEndian32(FromLittleEndian32(b)) == b
  {
  }

  /** The bytes of a 32-bit value most significant first, as PNG stores integers. */
  function BigEndian32(v: bv32): (r: seq<byte>)
    ensures |r| == 4
  {
    [(v >> 24) as byte, ((v >> 16) & 0xFF) as byte, ((v >> 8) & 0xFF) as byte, (v & 0xFF) as byte]
  }

  /** Reads a 32-bit value stored most significant byte first. */
  function FromBigEndian32(b: seq<byte>): bv32
    requires |b| == 4
  {
    ((b[0] as bv32) << 24) | ((b[1] as bv32) << 16) | ((b[2] as bv32) << 8) | (b[3] as bv32)
  }

  /** Big-endian encoding and decoding are inverse to each other. */
  lemma {:induction false} BigEndian32RoundTrip(v: bv32, b: seq<byte>)
    requires |b| == 4
    ensures FromBigEndian32(BigEndian32(v)) == v
    ensures BigEndian32(FromBigEndian32(b)) == b
  {
  }

  /** `BinaryPrimitives.ReverseEndianness` on a 32-bit value. */
  function ByteSwap32(v: bv32): (r: bv32)
    ensures LittleEndian32(r) == [LittleEndian32(v)[3], LittleEndian32(v)[2], LittleEndian32(v)[1], LittleEndian32(v)[0]]
  {
    ((v & 0xFF) << 24) | ((v & 0xFF00) << 8) | ((v >> 8) & 0xFF00) | (v >> 24)
  }

  lemma {:induction false} ByteSwap32Involution(v: bv32)
    ensures ByteSwap32(ByteSwap32(v)) == v
  {
  }

  /** On a little-endian host the memory of a byte-swapped value is the big-endian encoding. */
  lemma {:induction false} SwappedLayoutIsBigEndian32(v: bv32)
    ensures LittleEndian32(ByteSwap32(v)) == BigEndian32(v)
  {
  }

  function LittleEndian64(v: bv64): (r: seq<byte>)
    ensures |r| == 8
  {
    [(v & 0xFF) as byte, ((v >> 8) & 0xFF) as byte, ((v >> 16) & 0xFF) as byte, ((v >> 24) & 0xFF) as byte,
     ((v >> 32) & 0xFF) as byte, ((v >> 40) & 0xFF) as byte, ((v >> 48) & 0xFF) as byte, (v >> 56) as byte]
  }

  function BigEndian64(v: bv64): (r: seq<byte>)
    ensures |r| == 8
  {
    [(v >> 56) as byte, ((v >> 48) & 0xFF) as byte, ((v >> 40) & 0xFF) as byte, ((v >> 32) & 0xFF) as byte,
     ((v >> 24) & 0xFF) as byte, ((v >> 16) & 0xFF) as byte, ((v >> 8) & 0xFF) as byte, (v & 0xFF) as byte]
  }

  function FromBigEndian64(b: seq<byte>): bv64
    requires |b| == 8
  {
    ((b[0] as bv64) << 56) | ((b[1] as bv64) << 48) | ((b[2] as bv64) << 40) | ((b[3] as bv64) << 32) |
    ((b[4] as bv64) << 24) | ((b[5] as bv64) << 16) | ((b[6] as bv64) << 8) | (b[7] as bv64)
  }

  lemma {:induction false} BigEndian64RoundTrip(v: bv64)
    ensures FromBigEndian64(BigEndian64(v)) == v
  {
  }

  /** `BinaryPrimitives.ReverseEndianness` on a 64-bit value. */
  function ByteSwap64(v: bv64): bv64
  {
    ((v & 0xFF) << 56) | ((v & 0xFF00) << 40) | ((v & 0xFF_0000) << 24) | ((v & 0xFF00_0000) << 8) |
    ((v >> 8) & 0xFF00_0000) | ((v >> 24) & 0xFF_0000) | ((v >> 40) & 0xFF00) | (v >> 56)
  }

  lemma {:induction false} SwappedLayoutIsBigEndian64(v: bv64)
    ensures LittleEndian64(ByteSwap64(v)) == BigEndian64(v)
  {
  }

  /** The values the serialisation tests write: 1 as int, uint and long. */
  lemma {:induction false} BigEndianOfOne()
    ensures BigEndian32(Int32Bits(1)) == [0, 0, 0, 1]
    ensures BigEndian32(1) == [0, 0, 0, 1]
    ensures BigEndian64(Int64Bits(1)) == [0, 0, 0, 0, 0, 0, 0, 1]
  {
  }

  // ---------------------------------------------------------------------
  // Stream writers

  /**
   * `WriteInt`: swaps the bytes of the value and writes its memory, which
   * puts the four bytes into the stream most significant first.
   */
  method WriteInt(stream: MemoryStream, value: int)
    requires stream.Valid()
    requires -0x8000_0000 <= value < 0x8000_0000
    modifies stream
    ensures stream.Valid()
    ensures stream.buffer == Overwrite(old(stream.buffer), old(stream.position), BigEndian32(Int32Bits(value)))
    ensures stream.position == old(stream.position) + 4
    ensures old(stream.position) == |old(stream.buffer)| ==> stream.buffer == old(stream.buffer) + BigEndian32(Int32Bits(value))
  {
    var swapped := ByteSwap32(Int32Bits(value));
    SwappedLayoutIsBigEndian32(Int32Bits(value));
    stream.Write(LittleEndian32(swapped));
  }

  /** `WriteUInt`: the same as `WriteInt` for an unsigned value. */
  method WriteUInt(stream: MemoryStream, value: bv32)
    requires stream.Valid()
    modifies stream
    ensures stream.Valid()
    ensures stream.buffer == Overwrite(old(stream.buffer), old(stream.position), BigEndian32(value))
    ensures stream.position == old(stream.position) + 4
    ensures old(stream.position) == |old(stream.buffer)| ==> stream.buffer == old(stream.buffer) + BigEndian32(value)
  {
    var swapped := ByteSwap32(value);
    SwappedLayoutIsBigEndian32(value);
    stream.Write(LittleEndian32(swapped));
  }

  /** `WriteLong`: eight bytes, most significant first. */
  method WriteLong(stream: MemoryStream, value: int)
    requires stream.Valid()
    requires -0x8000_0000_0000_0000 <= value < 0x8000_0000_0000_0000
    modifies stream
    ensures stream.Valid()
    ensures stream.buffer == Overwrite(old(stream.buffer), old(stream.position), BigEndian64(Int64Bits(value)))
    ensures stream.position == old(stream.position) + 8
    ensures old(stream.position) == |old(stream.buffer)| ==> stream.buffer == old(stream.buffer) + BigEndian64(Int64Bits(value))
  {
    var swapped := ByteSwap64(Int64Bits(value));
    SwappedLayoutIsBigEndian64(Int64Bits(value));
    stream.Write(LittleEndian64(swapped));
  }

  /** A buffer with the four bytes at `position` replaced by the big-endian encoding of `value`. */
  function PatchBigEndian32(s: seq<byte>, value: bv32, position: nat): (r: seq<byte>)
    requires position + 4 <= |s|
    ensures |r| == |s|
    ensures r[position..position + 4] == BigEndian32(value)
    ensures forall i :: 0 <= i < |s| && !(position <= i < position + 4) ==> r[i] == s[i]
  {
    s[..position] + BigEndian32(value) + s[position + 4..]
  }

  /**
   * `SetUInt`: stores the byte-swapped value through a 32-bit view of the
   * buffer at `position`. The view needs four bytes there.
   */
  method SetUInt(buffer: array<byte>, value: bv32, position: nat)
    requires position + 4 <= buffer.Length
    modifies buffer
    ensures buffer[..] == PatchBigEndian32(old(buffer[..]), value, position)
  {
    var layout := LittleEndian32(ByteSwap32(value));
    SwappedLayoutIsBigEndian32(value);
    buffer[position] := layout[0];
    buffer[position + 1] := layout[1];
    buffer[position + 2] := layout[2];
    buffer[position + 3] := layout[3];
  }

  /** The patch the serialisation test makes: 0x01020304 at offset 1 of six zero bytes. */
  lemma {:induction false} PatchExample()
    ensures PatchBigEndian32([0, 0, 0, 0, 0, 0], 16909060, 1) == [0, 1, 2, 3, 4, 0]
  {
  }

  // ---------------------------------------------------------------------
  // Per-byte bit reversal

  /** The byte whose bit `i` is bit `7 - i` of `b`, assembled bit by bit. */
  function ReverseBitsOf(b: byte): (r: byte)
    ensures forall i: bv8 :: i < 8 ==> BitOf8(r, i) == BitOf8(b, 7 - i)
  {
    ((b & 0x01) << 7) | ((b & 0x02) << 5) | ((b & 0x04) << 3) | ((b & 0x08) << 1) |
    ((b & 0x10) >> 1) | ((b & 0x20) >> 3) | ((b & 0x40) >> 5) | ((b & 0x80) >> 7)
  }

  lemma {:induction false} ReverseBitsOfInvolution(b: byte)
    ensures ReverseBitsOf(ReverseBitsOf(b)) == b
  {
  }

  /**
   * `ReverseBitsByRef`: swaps the nibbles, then the bit pairs, then the
   * single bits of a byte.
   */
  method ReverseBitsByRef(b: byte) returns (r: byte)
    ensures r == ReverseBitsOf(b)
  {
    r := ((b & 0xF0) >> 4) | ((b & 0x0F) << 4);
    r := ((r & 0xCC) >> 2) | ((r & 0x33) << 2);
    r := ((r & 0xAA) >> 1) | ((r & 0x55) << 1);
  }

  /** The reversals the byte tests check: 1 becomes 128 and 64 becomes 2. */
  lemma {:induction false} ReverseBitsExamples()
    ensures ReverseBitsOf(1) == 128 && ReverseBitsOf(64) == 2
  {
  }

  /** Every byte of a buffer bit-reversed. */
  function ReverseEach(s: seq<byte>): (r: seq<byte>)
  {
    seq(|s|, i requires 0 <= i < |s| => ReverseBitsOf(s[i]))
  }

  lemma {:induction false} ReverseEachInvolution(s: seq<byte>)
    ensures ReverseEach(ReverseEach(s)) == s
  {
    forall i | 0 <= i < |s|
      ensures ReverseEach(ReverseEach(s))[i] == s[i]
    {
      ReverseBitsOfInvolution(s[i]);
    }
  }

  // ---------------------------------------------------------------------
  // Byte view of an int buffer

  /** The memory of a buffer of 32-bit words, four little-endian bytes per word. */
  function WordsToBytes(ws: seq<bv32>): (r: seq<byte>)
    ensures |r| == 4 * |ws|
  {
    seq(4 * |ws|, k requires 0 <= k < 4 * |ws| => LittleEndian32(ws[k / 4])[k % 4])
  }

  /** Reads a buffer of bytes back as 32-bit words. */
  function BytesToWords(bs: seq<byte>): (r: seq<bv32>)
    requires |bs| % 4 == 0
    ensures |r| == |bs| / 4
  {
    seq(|bs| / 4, j requires 0 <= j < |bs| / 4 => FromLittleEndian32(bs[4 * j..4 * j + 4]))
  }

  /** The four bytes of word `j` in the byte view. */
  lemma {:induction false} WordsToBytesSlice(ws: seq<bv32>, j: nat)
    requires j < |ws|
    ensures WordsToBytes(ws)[4 * j..4 * j + 4] == LittleEndian32(ws[j])
  {
    var bs := WordsToBytes(ws);
    forall t | 0 <= t < 4
      ensures bs[4 * j..4 * j + 4][t] == LittleEndian32(ws[j])[t]
    {
      assert (4 * j + t) / 4 == j && (4 * j + t) % 4 == t;
    }
  }

  /** Viewing words as bytes and reading them back gives the words. */
  lemma {:induction false} WordsBytesRoundTrip(ws: seq<bv32>)
    ensures BytesToWords(WordsToBytes(ws)) == ws
  {
    forall j | 0 <= j < |ws|
      ensures BytesToWords(WordsToBytes(ws))[j] == ws[j]
    {
      WordsToBytesSlice(ws, j);
      LittleEndian32RoundTrip(ws[j], LittleEndian32(ws[j]));
    }
  }

  /** `GetBytes` of a one-word array holding the bits 1, 0, 1: four bytes 5, 0, 0, 0. */
  lemma {:induction false} WordsToBytesExample()
    ensures WordsToBytes([5]) == [5, 0, 0, 0]
  {
  }

  /**
   * `GetBytes`: the byte view of the whole word array of a row. The source
   * aliases the words' memory; here the view is a fresh copy of it.
   */
  method GetBytes(words: array<bv32>) returns (view: array<byte>)
    ensures fresh(view)
    ensures view[..] == WordsToBytes(words[..])
  {
    view := new byte[4 * words.Length];
    forall k | 0 <= k < view.Length {
      view[k] := LittleEndian32(words[k / 4])[k % 4];
    }
  }

  // ---------------------------------------------------------------------
  // Complement

  function ComplementBytes(s: seq<byte>): seq<byte>
  {
    seq(|s|, i requires 0 <= i < |s| => !s[i])
  }

  function ComplementWords(s: seq<bv32>): seq<bv32>
  {
    seq(|s|, i requires 0 <= i < |s| => !s[i])
  }

  lemma {:induction false} ComplementInvolution(b: seq<byte>, w: seq<bv32>)
    ensures ComplementBytes(ComplementBytes(b)) == b
    ensures ComplementWords(ComplementWords(w)) == w
  {
  }

  /** One lane of `AndNot(x, y)`: `~x & y`. */
  function AndNot8(x: byte, y: byte): byte
  {
    !x & y
  }

  function AndNot32(x: bv32, y: bv32): bv32
  {
    !x & y
  }

  /** The vector prefix computes `AndNot(x, all ones)`, which is the complement the scalar tail computes. */
  lemma {:induction false} AndNotAllOnesIsComplement(x: byte, w: bv32)
    ensures AndNot8(x, 0xFF) == !x
    ensures AndNot32(w, 0xFFFF_FFFF) == !w
  {
  }

  /** Bytes in one vector register: 32 for AVX2, 16 for SSE2, none without vectors. */
  function ByteLanes(simd: Simd): nat
  {
    match simd
    case Avx2 => 32
    case Sse2 => 16
    case NoVectors => 0
  }

  /** 32-bit words in one vector register. */
  function IntLanes(simd: Simd): nat
  {
    match simd
    case Avx2 => 8
    case Sse2 => 4
    case NoVectors => 0
  }

  lemma {:induction false} MulMonotone(a: nat, b: nat, c: nat)
    requires a <= b
    ensures a * c <= b * c
  {
  }

  /** The whole vectors of a buffer of `n` elements leave fewer than one vector's worth after them. */
  lemma {:induction false} WholeVectorsRemainder(n: nat, lanes: nat)
    requires lanes > 0
    ensures (n / lanes) * lanes <= n && n - (n / lanes) * lanes < lanes
  {
  }

  /** Vector `i` of the `n / lanes` whole vectors lies inside the buffer, and ends where vector `i + 1` starts. */
  lemma {:induction false} WholeVectorInBounds(i: nat, n: nat, lanes: nat)
    requires lanes > 0 && i < n / lanes
    ensures i * lanes + lanes <= n
    ensures (i + 1) * lanes == i * lanes + lanes
  {
    MulMonotone(i + 1, n / lanes, lanes);
  }

  /** One vector `AndNot` with all ones, stored back over the `lanes` bytes it was loaded from. */
  method AndNotVector8(span: array<byte>, start: nat, lanes: nat)
    requires start + lanes <= span.Length
    modifies span
    ensures forall k :: start <= k < start + lanes ==> span[k] == !old(span[k])
    ensures forall k :: 0 <= k < span.Length && !(start <= k < start + lanes) ==> span[k] == old(span[k])
  {
    forall k | start <= k < start + lanes {
      span[k] := AndNot8(span[k], 0xFF);
    }
  }

  /** The same on a vector of 32-bit words. */
  method AndNotVector32(span: array<bv32>, start: nat, lanes: nat)
    requires start + lanes <= span.Length
    modifies span
    ensures span[..] == old(span[..])[..start] + ComplementWords(old(span[..])[start..start + lanes]) + old(span[..])[start + lanes..]
  {
    forall k | start <= k < start + lanes {
      span[k] := AndNot32(span[k], 0xFFFF_FFFF);
    }
    ComplementedRange(span[..], old(span[..]), start, start + lanes);
  }

  /** The vector loop of `Negate(Span<byte>)`: `span.Length / lanes` whole vectors, from the front. */
  method NegateByteVectors(span: array<byte>, lanes: nat) returns (bytesNegated: nat)
    requires lanes > 0
    modifies span
    ensures bytesNegated <= span.Length && span.Length - bytesNegated < lanes
    ensures forall k :: 0 <= k < bytesNegated ==> span[k] == !old(span[k])
    ensures forall k :: bytesNegated <= k < span.Length ==> span[k] == old(span[k])
  {
    bytesNegated := 0;
    var vectorCount := span.Length / lanes;
    for i := 0 to vectorCount
      invariant bytesNegated == i * lanes
      invariant forall k :: 0 <= k < bytesNegated ==> span[k] == !old(span[k])
      invariant forall k :: bytesNegated <= k < span.Length ==> span[k] == old(span[k])
    {
      WholeVectorInBounds(i, span.Length, lanes);
      AndNotVector8(span, bytesNegated, lanes);
      bytesNegated := bytesNegated + lanes;
      assert bytesNegated == (i + 1) * lanes;
    }
    WholeVectorsRemainder(span.Length, lanes);
  }

  /**
   * `Negate(Span<byte>)`: whole vectors are complemented by `AndNot` with
   * all ones, then the scalar loop complements the rest.
   */
  method NegateBytes(span: array<byte>, simd: Simd)
    modifies span
    ensures span[..] == ComplementBytes(old(span[..]))
  {
    var bytesNegated := 0;
    var lanes := ByteLanes(simd);
    if lanes > 0 {
      bytesNegated := NegateByteVectors(span, lanes);
    }
    NegateByteTail(span, bytesNegated);
    assert forall k :: 0 <= k < span.Length ==> span[k] == !old(span[k]);
  }

  /** The scalar loop of `Negate(Span<byte>)`: the bytes from `from` on, one at a time. */
  method NegateByteTail(span: array<byte>, from: nat)
    requires from <= span.Length
    modifies span
    ensures forall k :: 0 <= k < from ==> span[k] == old(span[k])
    ensures forall k :: from <= k < span.Length ==> span[k] == !old(span[k])
  {
    for i := from to span.Length
      invariant forall k :: 0 <= k < from ==> span[k] == old(span[k])
      invariant forall k :: from <= k < i ==> span[k] == !old(span[k])
      invariant forall k :: i <= k < span.Length ==> span[k] == old(span[k])
    {
      span[i] := !span[i];
    }
  }

  /** The vector loop of `Negate(Span<int>)`. */
  method NegateIntVectors(span: array<bv32>, lanes: nat) returns (intsNegated: nat)
    requires lanes > 0
    modifies span
    ensures intsNegated <= span.Length && span.Length - intsNegated < lanes
    ensures span[..] == ComplementWords(old(span[..])[..intsNegated]) + old(span[..])[intsNegated..]
  {
    intsNegated := 0;
    var vectorCount := span.Length / lanes;
    ghost var before := span[..];
    assert before[..0] == [] && before[0..] == before;
    for i := 0 to vectorCount
      invariant intsNegated == i * lanes <= span.Length
      invariant span[..] == ComplementWords(before[..intsNegated]) + before[intsNegated..]
    {
      WholeVectorInBounds(i, span.Length, lanes);
      AndNotVector32(span, intsNegated, lanes);
      ComplementNextVector(before, intsNegated, lanes);
      intsNegated := intsNegated + lanes;
    }
    WholeVectorsRemainder(span.Length, lanes);
  }

  /** A buffer whose words in `[lo, hi)` are complemented and whose others are kept. */
  lemma {:induction false} ComplementedRange(after: seq<bv32>, before: seq<bv32>, lo: nat, hi: nat)
    requires |after| == |before| && lo <= hi <= |before|
    requires forall k :: lo <= k < hi ==> after[k] == !before[k]
    requires forall k :: 0 <= k < lo ==> after[k] == before[k]
    requires forall k :: hi <= k < |after| ==> after[k] == before[k]
    ensures after == before[..lo] + ComplementWords(before[lo..hi]) + before[hi..]
  {
    var expected := before[..lo] + ComplementWords(before[lo..hi]) + before[hi..];
    forall k | 0 <= k < |after|
      ensures after[k] == expected[k]
    {
      if k < lo {
        assert expected[k] == before[..lo][k];
      } else if k < hi {
        assert expected[k] == ComplementWords(before[lo..hi])[k - lo];
      } else {
        assert expected[k] == before[hi..][k - hi];
      }
    }
  }

  /** Complementing the vector after the first `n` words extends the complemented prefix by `lanes`. */
  lemma {:induction false} ComplementNextVector(before: seq<bv32>, n: nat, lanes: nat)
    requires n + lanes <= |before|
    ensures var done := ComplementWords(before[..n]) + before[n..];
            done[..n] + ComplementWords(done[n..n + lanes]) + done[n + lanes..]
            == ComplementWords(before[..n + lanes]) + before[n + lanes..]
  {
    var done := ComplementWords(before[..n]) + before[n..];
    assert done[..n] == ComplementWords(before[..n]);
    assert done[n..n + lanes] == before[n..n + lanes];
    assert done[n + lanes..] == before[n + lanes..];
    assert before[..n + lanes] == before[..n] + before[n..n + lanes];
    ComplementWordsAppend(before[..n], before[n..n + lanes]);
  }

  /** Complementing word by word splits over a concatenation. */
  lemma {:induction false} ComplementWordsAppend(x: seq<bv32>, y: seq<bv32>)
    ensures ComplementWords(x + y) == ComplementWords(x) + ComplementWords(y)
  {
  }

  /**
   * `Negate(Span<int>)`: the same scheme over 32-bit words. Both vector
   * branches first take the address of element 0, which fails on an empty
   * span; `ok` is false exactly then, and the span is left as it was.
   */
  method NegateInts(span: array<bv32>, simd: Simd) returns (ok: bool)
    modifies span
    ensures ok == (simd == NoVectors || span.Length > 0)
    ensures ok ==> span[..] == ComplementWords(old(span[..]))
    ensures !ok ==> span[..] == old(span[..])
  {
    var lanes := IntLanes(simd);
    if lanes > 0 && span.Length == 0 {
      return false;
    }
    NegateWords(span, lanes);
    ok := true;
  }

  /** The vector loop, when there are lanes, then the scalar loop over the words left. */
  method NegateWords(span: array<bv32>, lanes: nat)
    modifies span
    ensures span[..] == ComplementWords(old(span[..]))
  {
    ghost var before := span[..];
    var intsNegated := 0;
    if lanes > 0 {
      intsNegated := NegateIntVectors(span, lanes);
    } else {
      assert before == ComplementWords(before[..0]) + before[0..];
    }
    NegateIntTail(span, intsNegated);
    assert span[..] == ComplementWords(before[..intsNegated]) + ComplementWords(before[intsNegated..]);
    ComplementWordsAppend(before[..intsNegated], before[intsNegated..]);
    assert before[..intsNegated] + before[intsNegated..] == before;
  }

  /** The scalar loop of `Negate(Span<int>)`: the words from `from` on, one at a time. */
  method NegateIntTail(span: array<bv32>, from: nat)
    requires from <= span.Length
    modifies span
    ensures span[..] == old(span[..])[..from] + ComplementWords(old(span[..])[from..])
  {
    for i := from to span.Length
      invariant forall k :: 0 <= k < from ==> span[k] == old(span[k])
      invariant forall k :: from <= k < i ==> span[k] == !old(span[k])
      invariant forall k :: i <= k < span.Length ==> span[k] == old(span[k])
    {
      span[i] := !span[i];
    }
    ComplementedRange(span[..], old(span[..]), from, span.Length);
    assert old(span[..])[span.Length..] == [];
  }

  /**
   * The complements the tests expect: bytes 1, 128 become 254, 127, and ints
   * 1, int.MinValue, 2 become -2, int.MaxValue, -3 (written here as their
   * two's-complement bit patterns).
   */
  lemma {:induction false} ComplementExamples()
    ensures ComplementBytes([1, 128]) == [254, 127]
    ensures ComplementWords([1, 0x8000_0000, 2]) == [0xFFFF_FFFE, 0x7FFF_FFFF, 0xFFFF_FFFD]
  {
  }

  // ---------------------------------------------------------------------
  // Endianness reversal of an int buffer

  /** `n & ~(m - 1)` for the vector widths `m` of 8 words and 32 bytes: `n` rounded down to a multiple of `m`. */
  function AlignDown(n: nat, m: nat): (r: nat)
    requires m == 8 || m == 32
    ensures r <= n && r % m == 0 && n - r < m
  {
    if m == 8 then n - n % 8 else n - n % 32
  }

  function ByteSwapWords(ws: seq<bv32>): seq<bv32>
  {
    seq(|ws|, j requires 0 <= j < |ws| => ByteSwap32(ws[j]))
  }

  lemma {:induction false} ByteSwapWordsInvolution(ws: seq<bv32>)
    ensures ByteSwapWords(ByteSwapWords(ws)) == ws
  {
    forall j | 0 <= j < |ws|
      ensures ByteSwapWords(ByteSwapWords(ws))[j] == ws[j]
    {
      ByteSwap32Involution(ws[j]);
    }
  }

  /** The shuffle control of the vector path: byte 4w + t comes from byte 4w + 3 - t. */
  const EndiannessReverseMask: seq<int> :=
    [3, 2, 1, 0, 7, 6, 5, 4, 11, 10, 9, 8, 15, 14, 13, 12,
     19, 18, 17, 16, 23, 22, 21, 20, 27, 26, 25, 24, 31, 30, 29, 28]

  /**
   * The AVX2 byte shuffle (`vpshufb`) on 32 bytes: each 16-byte half is
   * shuffled on its own, by the low four bits of the control byte; a control
   * byte with its top bit set gives zero.
   */
  function Shuffle(src: seq<byte>, control: seq<int>): (r: seq<byte>)
    requires |src| == 32 && |control| == 32
    requires forall j :: 0 <= j < 32 ==> 0 <= control[j] < 256
    ensures |r| == 32
  {
    seq(32, j requires 0 <= j < 32 =>
      if control[j] >= 128 then 0 else src[(j / 16) * 16 + control[j] % 16])
  }

  lemma {:induction false} EndiannessMaskSelectsMirrorByte()
    ensures forall j :: 0 <= j < 32 ==> 0 <= EndiannessReverseMask[j] < 128
    ensures forall j :: 0 <= j < 32 ==>
      (j / 16) * 16 + EndiannessReverseMask[j] % 16 == (j / 4) * 4 + 3 - j % 4
  {
    EndiannessMaskIsMirror();
    forall j | 0 <= j < 32
      ensures (j / 16) * 16 + EndiannessReverseMask[j] % 16 == (j / 4) * 4 + 3 - j % 4
    {
      MirrorStaysInHalf(j);
    }
  }

  /** Entry `j` of the mask is the mirror of `j` in its group of four. */
  lemma {:induction false} EndiannessMaskIsMirror()
    ensures forall j :: 0 <= j < 32 ==> EndiannessReverseMask[j] == (j / 4) * 4 + 3 - j % 4
  {
    assert EndiannessReverseMask == seq(32, j => (j / 4) * 4 + 3 - j % 4);
  }

  /** Mirroring a byte index inside its group of four keeps it in the same 16-byte half. */
  lemma {:induction false} MirrorStaysInHalf(j: int)
    requires 0 <= j < 32
    ensures (j / 16) * 16 + ((j / 4) * 4 + 3 - j % 4) % 16 == (j / 4) * 4 + 3 - j % 4
  {
  }

  /** Byte `j` of the shuffled vector is byte `j` of its word's mirror position. */
  lemma {:induction false} ShuffleByte(bs: seq<byte>, j: int)
    requires |bs| == 32 && 0 <= j < 32
    ensures forall m :: 0 <= m < 32 ==> 0 <= EndiannessReverseMask[m] < 256
    ensures Shuffle(bs, EndiannessReverseMask)[j] == bs[(j / 4) * 4 + 3 - j % 4]
  {
    EndiannessMaskSelectsMirrorByte();
  }

  /** Reading the four bytes of a word in the opposite order gives the byte-swapped word. */
  lemma {:induction false} MirroredBytesAreByteSwap(v: bv32)
    ensures FromLittleEndian32([LittleEndian32(v)[3], LittleEndian32(v)[2], LittleEndian32(v)[1], LittleEndian32(v)[0]])
         == ByteSwap32(v)
  {
    LittleEndian32RoundTrip(ByteSwap32(v), LittleEndian32(v));
  }

  lemma {:induction false} SliceOfFour(s: seq<byte>, i: nat)
    requires i + 4 <= |s|
    ensures s[i..i + 4] == [s[i], s[i + 1], s[i + 2], s[i + 3]]
  {
  }

  /** Byte `t` of word `w` after the shuffle is byte `3 - t` of the word before it. */
  lemma {:induction false} ShuffleMirrorsByte(ws: seq<bv32>, w: int, t: int)
    requires |ws| == 8 && 0 <= w < 8 && 0 <= t < 4
    ensures forall j :: 0 <= j < 32 ==> 0 <= EndiannessReverseMask[j] < 256
    ensures Shuffle(WordsToBytes(ws), EndiannessReverseMask)[4 * w + t] == LittleEndian32(ws[w])[3 - t]
  {
    var j := 4 * w + t;
    var bs := WordsToBytes(ws);
    var src := 4 * w + 3 - t;
    assert j / 4 == w && j % 4 == t;
    assert src / 4 == w && src % 4 == 3 - t;
    ShuffleByte(bs, j);
    assert Shuffle(bs, EndiannessReverseMask)[j] == bs[src];
  }

  /** The shuffle puts the bytes of word `w` in the opposite order. */
  lemma {:induction false} ShuffleMirrorsWord(ws: seq<bv32>, w: int)
    requires |ws| == 8 && 0 <= w < 8
    ensures forall j :: 0 <= j < 32 ==> 0 <= EndiannessReverseMask[j] < 256
    ensures Shuffle(WordsToBytes(ws), EndiannessReverseMask)[4 * w..4 * w + 4]
         == [LittleEndian32(ws[w])[3], LittleEndian32(ws[w])[2], LittleEndian32(ws[w])[1], LittleEndian32(ws[w])[0]]
  {
    ShuffleMirrorsByte(ws, w, 0);
    ShuffleMirrorsByte(ws, w, 1);
    ShuffleMirrorsByte(ws, w, 2);
    ShuffleMirrorsByte(ws, w, 3);
    SliceOfFour(Shuffle(WordsToBytes(ws), EndiannessReverseMask), 4 * w);
  }

  /** The vector step on eight words byte-swaps each of them. */
  lemma {:induction false} ShuffleSwapsEachWord(ws: seq<bv32>)
    requires |ws| == 8
    ensures forall j :: 0 <= j < 32 ==> 0 <= EndiannessReverseMask[j] < 256
    ensures BytesToWords(Shuffle(WordsToBytes(ws), EndiannessReverseMask)) == ByteSwapWords(ws)
  {
    EndiannessMaskSelectsMirrorByte();
    forall w | 0 <= w < 8
      ensures BytesToWords(Shuffle(WordsToBytes(ws), EndiannessReverseMask))[w] == ByteSwap32(ws[w])
    {
      ShuffleMirrorsWord(ws, w);
      MirroredBytesAreByteSwap(ws[w]);
    }
  }

  /** One vector of the AVX2 path: load eight words, shuffle their bytes, store them back. */
  method ShuffleVector(span: array<bv32>, start: nat)
    requires start + 8 <= span.Length
    modifies span
    ensures forall k :: start <= k < start + 8 ==> span[k] == ByteSwap32(old(span[k]))
    ensures forall k :: 0 <= k < span.Length && !(start <= k < start + 8) ==> span[k] == old(span[k])
  {
    var block := span[start..start + 8];
    ShuffleSwapsEachWord(block);
    var swapped := BytesToWords(Shuffle(WordsToBytes(block), EndiannessReverseMask));
    forall k | start <= k < start + 8 {
      span[k] := swapped[k - start];
    }
  }

  /**
   * `ReverseEndianness(Span<int>)`: with AVX2, the first `Length & ~7` words
   * are byte-swapped eight at a time by a byte shuffle; the scalar loop swaps
   * the rest.
   */
  method ReverseEndianness(span: array<bv32>, simd: Simd)
    modifies span
    ensures span[..] == ByteSwapWords(old(span[..]))
  {
    var i := 0;
    if simd == Avx2 {
      var wholeVectors := AlignDown(span.Length, 8);
      while i < wholeVectors
        invariant 0 <= i <= wholeVectors && i % 8 == 0
        invariant forall k :: 0 <= k < i ==> span[k] == ByteSwap32(old(span[k]))
        invariant forall k :: i <= k < span.Length ==> span[k] == old(span[k])
      {
        ShuffleVector(span, i);
        i := i + 8;
      }
    }
    while i < span.Length
      invariant 0 <= i <= span.Length
      invariant forall k :: 0 <= k < i ==> span[k] == ByteSwap32(old(span[k]))
      invariant forall k :: i <= k < span.Length ==> span[k] == old(span[k])
    {
      span[i] := ByteSwap32(span[i]);
      i := i + 1;
    }
  }

  // ---------------------------------------------------------------------
  // Bit reversal of a byte buffer

  /** A 16-bit lane over two adjacent bytes, the first one low. */
  function Lane16(lo: byte, hi: byte): bv16
  {
    ((hi as bv16) << 8) | (lo as bv16)
  }

  /** The three steps of the vector path on one 16-bit lane: swap nibbles, bit pairs, single bits. */
  function SwapNibbles16(v: bv16): bv16 { ((v & 0xF0F0) >> 4) | ((v & 0x0F0F) << 4) }
  function SwapPairs16(v: bv16): bv16 { ((v & 0xCCCC) >> 2) | ((v & 0x3333) << 2) }
  function SwapBits16(v: bv16): bv16 { ((v & 0xAAAA) >> 1) | ((v & 0x5555) << 1) }

  function ReverseLane16(v: bv16): bv16
  {
    SwapBits16(SwapPairs16(SwapNibbles16(v)))
  }

  /** The same three steps on a single byte, as `ReverseBitsByRef` takes them. */
  function SwapNibbles8(b: byte): byte { ((b & 0xF0) >> 4) | ((b & 0x0F) << 4) }
  function SwapPairs8(b: byte): byte { ((b & 0xCC) >> 2) | ((b & 0x33) << 2) }
  function SwapBits8(b: byte): byte { ((b & 0xAA) >> 1) | ((b & 0x55) << 1) }

  lemma {:induction false} ThreeStepsReverseByte(b: byte)
    ensures SwapBits8(SwapPairs8(SwapNibbles8(b))) == ReverseBitsOf(b)
  {
  }

  /** Each 16-bit step moves bits only inside the byte they are in. */
  lemma {:induction false} LaneStepsStayInsideBytes(lo: byte, hi: byte)
    ensures SwapNibbles16(Lane16(lo, hi)) == Lane16(SwapNibbles8(lo), SwapNibbles8(hi))
    ensures SwapPairs16(Lane16(lo, hi)) == Lane16(SwapPairs8(lo), SwapPairs8(hi))
    ensures SwapBits16(Lane16(lo, hi)) == Lane16(SwapBits8(lo), SwapBits8(hi))
  {
  }

  /** So the vector steps reverse the bits of each byte of the lane. */
  lemma {:induction false} LaneMasksStayInsideBytes(lo: byte, hi: byte)
    ensures ReverseLane16(Lane16(lo, hi)) == Lane16(ReverseBitsOf(lo), ReverseBitsOf(hi))
  {
    LaneStepsStayInsideBytes(lo, hi);
    LaneStepsStayInsideBytes(SwapNibbles8(lo), SwapNibbles8(hi));
    LaneStepsStayInsideBytes(SwapPairs8(SwapNibbles8(lo)), SwapPairs8(SwapNibbles8(hi)));
    ThreeStepsReverseByte(lo);
    ThreeStepsReverseByte(hi);
  }

  /** The low (`high == false`) or high byte of a 16-bit lane. */
  function LaneByte(lane: bv16, high: bool): byte
  {
    if high then (lane >> 8) as byte else (lane & 0xFF) as byte
  }

  /** The vector step on 32 bytes, seen as sixteen 16-bit lanes. */
  function ReverseBitsVector(v: seq<byte>): (r: seq<byte>)
    requires |v| == 32
    ensures |r| == 32
  {
    seq(32, k requires 0 <= k < 32 =>
      LaneByte(ReverseLane16(Lane16(v[k - k % 2], v[k - k % 2 + 1])), k % 2 == 1))
  }

  lemma {:induction false} ReverseBitsVectorPerByte(v: seq<byte>)
    requires |v| == 32
    ensures ReverseBitsVector(v) == ReverseEach(v)
  {
    forall k | 0 <= k < 32
      ensures ReverseBitsVector(v)[k] == ReverseBitsOf(v[k])
    {
      LaneMasksStayInsideBytes(v[k - k % 2], v[k - k % 2 + 1]);
    }
  }

  /**
   * `ReverseBits(Span<byte>)`: with AVX2, the first `Length & ~31` bytes are
   * reversed 32 at a time; `ReverseBitsByRef` reverses the rest one by one.
   */
  method ReverseBitsBytes(span: array<byte>, simd: Simd)
    modifies span
    ensures span[..] == ReverseEach(old(span[..]))
  {
    var i := 0;
    if simd == Avx2 {
      i := ReverseBitsVectors(span);
    }
    ReverseBitsTail(span, i);
    assert forall k :: 0 <= k < span.Length ==> span[k] == ReverseBitsOf(old(span[k]));
  }

  /** The AVX2 loop of `ReverseBits(Span<byte>)`: the first `Length & ~31` bytes, 32 at a time. */
  method ReverseBitsVectors(span: array<byte>) returns (end256: nat)
    modifies span
    ensures end256 <= span.Length
    ensures forall k :: 0 <= k < end256 ==> span[k] == ReverseBitsOf(old(span[k]))
    ensures forall k :: end256 <= k < span.Length ==> span[k] == old(span[k])
  {
    var i := 0;
    end256 := AlignDown(span.Length, 32);
    while i < end256
      invariant 0 <= i <= end256 && i % 32 == 0
      invariant forall k :: 0 <= k < i ==> span[k] == ReverseBitsOf(old(span[k]))
      invariant forall k :: i <= k < span.Length ==> span[k] == old(span[k])
    {
      var block := span[i..i + 32];
      ReverseBitsVectorPerByte(block);
      var reversed := ReverseBitsVector(block);
      forall k | i <= k < i + 32 {
        span[k] := reversed[k - i];
      }
      i := i + 32;
    }
  }

  /** The scalar loop of `ReverseBits(Span<byte>)`: `ReverseBitsByRef` on each byte from `from` on. */
  method ReverseBitsTail(span: array<byte>, from: nat)
    requires from <= span.Length
    modifies span
    ensures forall k :: 0 <= k < from ==> span[k] == old(span[k])
    ensures forall k :: from <= k < span.Length ==> span[k] == ReverseBitsOf(old(span[k]))
  {
    var i := from;
    while i < span.Length
      invariant from <= i <= span.Length
      invariant forall k :: 0 <= k < from ==> span[k] == old(span[k])
      invariant forall k :: from <= k < i ==> span[k] == ReverseBitsOf(old(span[k]))
      invariant forall k :: i <= k < span.Length ==> span[k] == old(span[k])
    {
      span[i] := ReverseBitsByRef(span[i]);
      i := i + 1;
    }
  }

  // ---------------------------------------------------------------------
  // Bit reversal of an int buffer

  /**
   * What `ReverseBits(Span<int>)` does to one word: swap its bytes, then
   * reverse the bits of each byte of its memory.
   */
  function ReverseWordBits(w: bv32): bv32
  {
    var b := LittleEndian32(ByteSwap32(w));
    FromLittleEndian32([ReverseBitsOf(b[0]), ReverseBitsOf(b[1]), ReverseBitsOf(b[2]), ReverseBitsOf(b[3])])
  }

  /** Swapping the bytes and reversing each byte reverses all 32 bits of the word. */
  lemma {:induction false} ReverseWordBitsReversesAllBits(w: bv32)
    ensures forall i: bv32 :: i < 32 ==> BitOf32(ReverseWordBits(w), i) == BitOf32(w, 31 - i)
  {
  }

  /**
   * The reversals the int test checks: 1 becomes int.MinValue (bit pattern
   * 0x8000_0000) and int.MinValue + 2 (0x8000_0002) becomes 0x4000_0001.
   */
  lemma {:induction false} ReverseWordBitsExamples()
    ensures ReverseWordBits(1) == 0x8000_0000
    ensures ReverseWordBits(0x8000_0002) == 0x4000_0001
    ensures ReverseWordBits(0) == 0
  {
  }

  function ReverseBitsWords(ws: seq<bv32>): seq<bv32>
  {
    seq(|ws|, j requires 0 <= j < |ws| => ReverseWordBits(ws[j]))
  }

  /** Word `j` read back from the bit-reversed byte view of `ws`. */
  lemma {:induction false} ReversedViewWord(ws: seq<bv32>, j: nat)
    requires j < |ws|
    ensures FromLittleEndian32(ReverseEach(WordsToBytes(ws))[4 * j..4 * j + 4])
         == FromLittleEndian32([ReverseBitsOf(LittleEndian32(ws[j])[0]), ReverseBitsOf(LittleEndian32(ws[j])[1]),
                                ReverseBitsOf(LittleEndian32(ws[j])[2]), ReverseBitsOf(LittleEndian32(ws[j])[3])])
  {
    var bs := WordsToBytes(ws);
    WordsToBytesSlice(ws, j);
    var r := ReverseEach(bs);
    SliceOfFour(r, 4 * j);
    SliceOfFour(bs, 4 * j);
  }

  /**
   * `ReverseBits(Span<int>)`: `ReverseEndianness`, then `ReverseBits` over the
   * byte view of the words. The view aliases the words in the source; here it
   * is copied out and back.
   */
  method ReverseBitsInts(span: array<bv32>, simd: Simd)
    modifies span
    ensures span[..] == ReverseBitsWords(old(span[..]))
  {
    ReverseEndianness(span, simd);
    ghost var swapped := span[..];
    var view := GetBytes(span);
    ReverseBitsBytes(view, simd);
    forall j | 0 <= j < span.Length {
      span[j] := FromLittleEndian32(view[4 * j..4 * j + 4]);
    }
    forall j | 0 <= j < span.Length
      ensures span[j] == ReverseWordBits(old(span[j]))
    {
      ReversedViewWord(swapped, j);
    }
  }
}

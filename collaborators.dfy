/**
 * The code the encoder calls but does not contain: the CRC-32 of the chunk
 * trailer, the zlib compressor behind the image data and the compressed text
 * chunks, and the Latin-1 and UTF-8 text encoders. They are passed in as
 * functions; nothing about them is assumed beyond what is stated here,
 * and every bound on their outputs is stated on the arguments the encoder
 * passes them.
 */
module Collaborators {
  import opened Streams

  datatype Codecs = Codecs(
    /** CRC-32 of `data`, continuing from `seed` (the first call passes 0). */
    crc32: (seq<byte>, bv32) -> bv32,
    /** zlib compression of a whole buffer. */
    zlib: seq<byte> -> seq<byte>,
    /** Latin-1 encoding of a string. */
    latin1: string -> seq<byte>,
    /** UTF-8 encoding of a string. */
    utf8: string -> seq<byte>)

  /** Largest number of bytes a .NET span can hold. */
  const MaxSpan: int := 0x7FFF_FFFF

  /** A CRC that can be computed piecewise: the checksum of `a + b` continues from that of `a`. */
  ghost predicate Chainable(crc: (seq<byte>, bv32) -> bv32)
  {
    forall a: seq<byte>, b: seq<byte>, s: bv32 :: crc(a + b, s) == crc(b, crc(a, s))
  }
}

/**
 * Bytes, byte strings and the in-memory stream the encoder writes into.
 *
 * `MemoryStream` models the part of System.IO.MemoryStream that the encoder
 * relies on: a growable buffer with a cursor, where a write first overwrites
 * the bytes under the cursor and then extends the buffer, and where moving
 * the cursor back never truncates what is already there.
 */
module Streams {

  type byte = bv8

  /** A value that may be absent (a C# reference that may be null). */
  datatype Option<T> = None | Some(value: T)

  /** `n` copies of `b`; the all-zero and all-0xFF scanlines are built from it. */
  function Repeat(b: byte, n: nat): (r: seq<byte>)
    ensures |r| == n
    ensures forall i :: 0 <= i < n ==> r[i] == b
  {
    seq(n, _ => b)
  }

  /** The buffer after writing `bytes` at cursor `pos`: overwrite, then extend. */
  function Overwrite(buf: seq<byte>, pos: nat, bytes: seq<byte>): (r: seq<byte>)
    requires pos <= |buf|
    ensures |r| == if pos + |bytes| <= |buf| then |buf| else pos + |bytes|
    ensures r[..pos] == buf[..pos]
    ensures r[pos..pos + |bytes|] == bytes
    ensures r[pos + |bytes|..] == if pos + |bytes| <= |buf| then buf[pos + |bytes|..] else []
  {
    if pos + |bytes| <= |buf| then buf[..pos] + bytes + buf[pos + |bytes|..] else buf[..pos] + bytes
  }

  /** Writing at the end of the buffer appends. */
  lemma {:induction false} OverwriteAtEnd(buf: seq<byte>, bytes: seq<byte>)
    ensures Overwrite(buf, |buf|, bytes) == buf + bytes
  {
  }

  /** A write that reaches past the old end leaves nothing of the old tail. */
  lemma {:induction false} OverwritePastEnd(buf: seq<byte>, pos: nat, bytes: seq<byte>)
    requires pos <= |buf| <= pos + |bytes|
    ensures Overwrite(buf, pos, bytes) == buf[..pos] + bytes
  {
  }

  /** Two writes at consecutive cursors are one write of the concatenation. */
  lemma {:induction false} OverwriteConsecutive(buf: seq<byte>, pos: nat, x: seq<byte>, y: seq<byte>)
    requires pos <= |buf|
    ensures Overwrite(Overwrite(buf, pos, x), pos + |x|, y) == Overwrite(buf, pos, x + y)
  {
    var once := Overwrite(buf, pos, x);
    var twice := Overwrite(once, pos + |x|, y);
    var whole := Overwrite(buf, pos, x + y);
    assert |twice| == |whole|;
    forall i | 0 <= i < |twice|
      ensures twice[i] == whole[i]
    {
      if i < pos {
        assert twice[i] == twice[..pos + |x|][i] == once[..pos + |x|][i] == once[i];
        assert once[i] == once[..pos][i] == buf[..pos][i];
        assert whole[i] == whole[..pos][i];
      } else if i < pos + |x| {
        assert twice[i] == twice[..pos + |x|][i] == once[..pos + |x|][i] == once[i];
        assert once[i] == once[pos..pos + |x|][i - pos] == x[i - pos];
        assert whole[i] == whole[pos..pos + |x + y|][i - pos] == (x + y)[i - pos];
      } else if i < pos + |x| + |y| {
        assert twice[i] == twice[pos + |x|..pos + |x| + |y|][i - pos - |x|] == y[i - pos - |x|];
        assert whole[i] == whole[pos..pos + |x + y|][i - pos] == (x + y)[i - pos];
      } else {
        assert twice[i] == twice[pos + |x| + |y|..][i - pos - |x| - |y|];
        assert once[i] == once[pos + |x|..][i - pos - |x|];
        assert whole[i] == whole[pos + |x + y|..][i - pos - |x| - |y|];
      }
    }
  }

  /** The concatenation of a sequence of byte strings, built from the back. */
  function Concat(parts: seq<seq<byte>>): (r: seq<byte>)
    decreases |parts|
  {
    if |parts| == 0 then [] else Concat(parts[..|parts| - 1]) + parts[|parts| - 1]
  }

  lemma {:induction false} ConcatSnoc(parts: seq<seq<byte>>, last: seq<byte>)
    ensures Concat(parts + [last]) == Concat(parts) + last
  {
    assert (parts + [last])[..|parts|] == parts;
  }

  /** The concatenation of one more part of a sequence of parts. */
  lemma {:induction false} ConcatPrefixStep(parts: seq<seq<byte>>, n: nat)
    requires n < |parts|
    ensures Concat(parts[..n + 1]) == Concat(parts[..n]) + parts[n]
  {
    assert parts[..n + 1] == parts[..n] + [parts[n]];
    ConcatSnoc(parts[..n], parts[n]);
  }

  /**
   * Writing part `n` at the end of the first `n` parts, written at `start`
   * into `base`, writes the first `n + 1`.
   */
  lemma {:induction false} OverwriteNextPart(base: seq<byte>, start: nat, parts: seq<seq<byte>>, n: nat,
                                             buffer: seq<byte>, position: nat)
    requires start <= |base| && n < |parts|
    requires buffer == Overwrite(base, start, Concat(parts[..n]))
    requires position == start + |Concat(parts[..n])|
    ensures position <= |buffer|
    ensures position + |parts[n]| == start + |Concat(parts[..n + 1])|
    ensures Overwrite(buffer, position, parts[n]) == Overwrite(base, start, Concat(parts[..n + 1]))
  {
    var prior := Concat(parts[..n]);
    ConcatPrefixStep(parts, n);
    assert Concat(parts[..n + 1]) == prior + parts[n];
    OverwriteConsecutive(base, start, prior, parts[n]);
  }

  /** A concatenation splits at any part boundary. */
  lemma {:induction false} ConcatSplit(parts: seq<seq<byte>>, n: nat)
    requires n <= |parts|
    ensures Concat(parts) == Concat(parts[..n]) + Concat(parts[n..])
    decreases |parts|
  {
    if n == |parts| {
      assert parts[..n] == parts && parts[n..] == [];
    } else {
      var init := parts[..|parts| - 1];
      ConcatSplit(init, n);
      assert init[..n] == parts[..n];
      assert parts[n..][..|parts[n..]| - 1] == init[n..];
    }
  }

  /**
   * Dropping the last `k` parts removes exactly their bytes: when each of
   * them is `len` bytes long, the remaining concatenation is the prefix of
   * length `|Concat(parts)| - k * len`.
   */
  lemma {:induction false} ConcatDropUniformSuffix(parts: seq<seq<byte>>, k: nat, len: nat)
    requires k <= |parts|
    requires forall j :: |parts| - k <= j < |parts| ==> |parts[j]| == len
    ensures k * len <= |Concat(parts)|
    ensures Concat(parts)[..|Concat(parts)| - k * len] == Concat(parts[..|parts| - k])
  {
    var n := |parts| - k;
    var tail := parts[n..];
    ConcatSplit(parts, n);
    forall j | 0 <= j < |tail|
      ensures |tail[j]| == len
    {
      assert tail[j] == parts[n + j];
    }
    ConcatUniformLength(tail, len);
  }

  /** The parts of a concatenation all of the same length `len` add up to `|parts| * len`. */
  lemma {:induction false} ConcatUniformLength(parts: seq<seq<byte>>, len: nat)
    requires forall j :: 0 <= j < |parts| ==> |parts[j]| == len
    ensures |Concat(parts)| == |parts| * len
    decreases |parts|
  {
    if |parts| > 0 {
      ConcatUniformLength(parts[..|parts| - 1], len);
      assert |parts| * len == (|parts| - 1) * len + len;
    }
  }

  /** The in-memory stream of System.IO: a buffer and a cursor into it. */
  class MemoryStream {
    var buffer: seq<byte>
    var position: nat

    ghost predicate Valid()
      reads this
    {
      position <= |buffer|
    }

    constructor ()
      ensures Valid() && buffer == [] && position == 0
    {
      buffer := [];
      position := 0;
    }

    method Write(bytes: seq<byte>)
      requires Valid()
      modifies this
      ensures Valid()
      ensures buffer == Overwrite(old(buffer), old(position), bytes)
      ensures position == old(position) + |bytes|
      ensures old(position) == |old(buffer)| ==> buffer == old(buffer) + bytes
    {
      OverwriteAtEnd(buffer, bytes);
      buffer := Overwrite(buffer, position, bytes);
      position := position + |bytes|;
    }

    method WriteByte(b: byte)
      requires Valid()
      modifies this
      ensures Valid()
      ensures buffer == Overwrite(old(buffer), old(position), [b])
      ensures position == old(position) + 1
      ensures old(position) == |old(buffer)| ==> buffer == old(buffer) + [b]
    {
      Write([b]);
    }

    /**
     * The `Position` setter: a negative position is refused (the .NET stream
     * throws ArgumentOutOfRangeException) and leaves the cursor where it was.
     */
    method SetPosition(p: int) returns (ok: bool)
      requires Valid()
      requires p <= |buffer|
      modifies this
      ensures Valid()
      ensures ok == (p >= 0)
      ensures buffer == old(buffer)
      ensures position == if ok then p else old(position)
    {
      ok := p >= 0;
      if ok {
        position := p;
      }
    }
  }
}

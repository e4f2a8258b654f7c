/**
 * .NET strings as the caption code sees them: `Length` and the indexer count
 * UTF-16 code units, so a character outside the Basic Multilingual Plane is
 * two of them, a surrogate pair. A Dafny `string` is a sequence of Unicode
 * scalar values; `Utf16` gives the code units a .NET string holds for it.
 */
module Strings {
  import opened Streams

  /** A UTF-16 code unit, the C# `char`: an unsigned 16-bit value. */
  newtype CodeUnit = x: int | 0 <= x < 0x1_0000

  /** The code units of one character: itself below U+10000, else a high and a low surrogate. */
  function UnitsOf(ch: char): (r: seq<CodeUnit>)
    ensures |r| == if ch as int < 0x1_0000 then 1 else 2
  {
    if ch as int < 0x1_0000 then [ch as int as CodeUnit]
    else
      var m := ch as int - 0x1_0000;
      [(0xD800 + m / 0x400) as CodeUnit, (0xDC00 + m % 0x400) as CodeUnit]
  }

  /** The UTF-16 code units of a string, character by character. */
  function Utf16(s: string): (r: seq<CodeUnit>)
    ensures |r| >= |s|
    ensures |r| == 0 <==> |s| == 0
  {
    if |s| == 0 then [] else UnitsOf(s[0]) + Utf16(s[1..])
  }

  predicate IsHighSurrogate(u: CodeUnit)
  {
    0xD800 <= u < 0xDC00
  }

  predicate IsLowSurrogate(u: CodeUnit)
  {
    0xDC00 <= u < 0xE000
  }

  /** The scalar value a surrogate pair stands for. */
  function PairValue(high: CodeUnit, low: CodeUnit): (n: int)
    requires IsHighSurrogate(high) && IsLowSurrogate(low)
    ensures 0x1_0000 <= n <= 0x10_FFFF
  {
    var h := high as int - 0xD800;
    var l := low as int - 0xDC00;
    assert h * 0x400 <= 0x3FF * 0x400;
    0x1_0000 + h * 0x400 + l
  }

  /**
   * The reference decoder: the string a sequence of code units spells, or
   * `None` when a surrogate is not part of a high-low pair.
   */
  function FromUtf16(u: seq<CodeUnit>): Option<string>
    decreases |u|
  {
    if |u| == 0 then Some([])
    else if IsHighSurrogate(u[0]) then
      if |u| >= 2 && IsLowSurrogate(u[1]) then
        match FromUtf16(u[2..])
        case None => None
        case Some(rest) => Some([PairValue(u[0], u[1]) as char] + rest)
      else None
    else if IsLowSurrogate(u[0]) then None
    else
      match FromUtf16(u[1..])
      case None => None
      case Some(rest) => Some([u[0] as int as char] + rest)
  }

  /** Decoding the code units of a string gives the string back. */
  lemma {:induction false} Utf16RoundTrip(s: string)
    ensures FromUtf16(Utf16(s)) == Some(s)
  {
    if |s| > 0 {
      Utf16RoundTrip(s[1..]);
      UnitsOfDecode(s[0], Utf16(s[1..]));
      assert [s[0]] + s[1..] == s;
    }
  }

  /** The code units of one character decode to it, whatever follows them. */
  lemma {:induction false} UnitsOfDecode(ch: char, rest: seq<CodeUnit>)
    ensures FromUtf16(UnitsOf(ch) + rest)
         == match FromUtf16(rest) case None => None case Some(r) => Some([ch] + r)
  {
    var u := UnitsOf(ch) + rest;
    if ch as int < 0x1_0000 {
      assert u[0] as int == ch as int;
      assert u[1..] == rest;
    } else {
      var m := ch as int - 0x1_0000;
      assert m < 0x10_0000;
      assert u[0] as int == 0xD800 + m / 0x400;
      assert u[1] as int == 0xDC00 + m % 0x400;
      assert u[2..] == rest;
      assert PairValue(u[0], u[1]) == ch as int;
    }
  }

  /** A string of characters below U+10000 is one code unit per character, each its own value. */
  lemma {:induction false} BasicPlaneUnits(s: string)
    requires forall i :: 0 <= i < |s| ==> s[i] as int < 0x1_0000
    ensures |Utf16(s)| == |s|
    ensures forall i :: 0 <= i < |s| ==> Utf16(s)[i] as int == s[i] as int
  {
    if |s| > 0 {
      BasicPlaneUnits(s[1..]);
      assert forall i :: 1 <= i < |s| ==> Utf16(s)[i] == Utf16(s[1..])[i - 1];
    }
  }

  /** A character outside the Basic Multilingual Plane counts twice: "A", U+1F600, "B" is four code units. */
  lemma {:induction false} SurrogatePairExample()
    ensures Utf16("A\U{1F600}B") == [0x41, 0xD83D, 0xDE00, 0x42]
  {
    var s := "A\U{1F600}B";
    assert s[1..][1..][1..] == [];
    assert s[1..][1..] == "B";
    assert s[1..][0] as int == 0x1F600;
  }
}

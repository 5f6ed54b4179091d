/** Identifiers as C strings, and the two helpers that take an identifier
    apart: `parseID` (its two initials) and `alphaIndex` (the bucket of the
    second initial). */
module Ids {
  import opened Wrappers
  import opened Bytes

  const Space: byte := 32

  /** A NUL-terminated `char*`: the bytes before the terminator. */
  type CStr = s: seq<byte> | forall i :: 0 <= i < |s| ==> s[i] != 0

  /** The C string a buffer holds when read through `char*`: its bytes up
      to the first zero byte. */
  function CStrOf(bytes: seq<byte>): (s: CStr)
    ensures |s| <= |bytes| && s == bytes[..|s|]
    ensures |s| < |bytes| ==> bytes[|s|] == 0
  {
    if bytes == [] || bytes[0] == 0 then []
    else [bytes[0]] + CStrOf(bytes[1..])
  }

  /** The value of a byte as a `char`, which is signed on the platforms the
      program targets: bytes 128..255 read as -128..-1. */
  function CharCode(c: byte): (v: int)
    ensures -128 <= v < 128
    ensures v % 256 == c
  {
    if c < 128 then c else c - 256
  }

  /** `std::toupper` in the "C" locale. */
  function ToUpper(c: byte): (u: byte)
    ensures !('a' as int <= u <= 'z' as int)
    ensures 'A' as int <= u <= 'Z' as int <==>
      ('A' as int <= c <= 'Z' as int || 'a' as int <= c <= 'z' as int)
    ensures 'a' as int <= c <= 'z' as int ==> u == c - ('a' as int - 'A' as int)
    ensures !('a' as int <= c <= 'z' as int) ==> u == c
  {
    if 'a' as int <= c <= 'z' as int then c - 32 else c
  }

  /** The bucket of a letter: 'A' and 'a' go to 0, ..., 'Z' and 'z' to 25;
      every other byte has none (-1). */
  function AlphaIndex(c: byte): (r: int)
    ensures -1 <= r < 26
    ensures r >= 0 <==> ('A' as int <= c <= 'Z' as int || 'a' as int <= c <= 'z' as int)
    ensures 'A' as int <= c <= 'Z' as int ==> r == c - 'A' as int
    ensures 'a' as int <= c <= 'z' as int ==> r == c - 'a' as int
  {
    var upper := ToUpper(c);
    if 'A' as int <= upper <= 'Z' as int then upper - 'A' as int else -1
  }

  /** The index of the leftmost space (what `strchr(id, ' ')` finds), or
      |s| when there is none. */
  function SpacePos(s: seq<byte>): (k: nat)
    ensures k <= |s|
    ensures Space !in s[..k]
    ensures k < |s| ==> s[k] == Space
  {
    if s == [] || s[0] == Space then 0
    else
      var k := 1 + SpacePos(s[1..]);
      assert s[..k] == [s[0]] + s[1..][..k - 1];
      k
  }

  datatype Initials = Initials(first: byte, second: byte)

  /** `parseID`: the first byte of the identifier and the byte right after
      its leftmost space. A null identifier, one without a space, one that
      starts with a space and one whose leftmost space is its last byte are
      rejected (None). */
  function ParseId(id: Option<CStr>): (r: Option<Initials>)
    ensures r.None? <==>
      || id.None?
      || Space !in id.value
      || id.value[0] == Space
      || Space !in id.value[..|id.value| - 1]
    ensures r.Some? ==>
      exists k :: 0 < k < |id.value| - 1 && id.value[k] == Space && Space !in id.value[..k]
        && r.value == Initials(id.value[0], id.value[k + 1])
  {
    match id
    case None => None
    case Some(s) =>
      var k := SpacePos(s);
      if k == |s| || k == 0 || k + 1 == |s| then None
      else
        assert Space !in s[..|s| - 1] ==> k >= |s| - 1 by {
          if k < |s| - 1 { assert s[..|s| - 1][k] == Space; }
        }
        Some(Initials(s[0], s[k + 1]))
  }

  lemma {:induction false} SpacePosAfter(word: seq<byte>, rest: seq<byte>)
    requires Space !in word
    ensures SpacePos(word + rest) == |word| + SpacePos(rest)
  {
    if word != [] {
      assert (word + rest)[1..] == word[1..] + rest;
      SpacePosAfter(word[1..], rest);
    } else {
      assert word + rest == rest;
    }
  }

  /** An identifier of two words: `parseID` gives the first byte of each,
      whatever follows in the second word (further spaces included). */
  lemma ParseTwoWords(first: CStr, second: CStr)
    requires |first| > 0 && |second| > 0 && Space !in first
    ensures var id := first + [Space] + second;
      && (forall i :: 0 <= i < |id| ==> id[i] != 0)
      && ParseId(Some(id)) == Some(Initials(first[0], second[0]))
  {
    var id: CStr := first + [Space] + second;
    assert id == first + ([Space] + second);
    SpacePosAfter(first, [Space] + second);
    assert id[|first| + 1] == second[0];
  }
}

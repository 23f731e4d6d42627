// UTF-8 (RFC 3629), as Python writes a `str` to a file opened with
// encoding='utf-8': the bytes the C indexer later reads back.

module Utf8 {
  import opened Bytes

  /** The number of bytes RFC 3629 spends on a code point. */
  function Width(c: char): (n: nat)
    ensures 1 <= n <= 4
    ensures n == 1 <==> c as int < 0x80
  {
    var v := c as int;
    if v < 0x80 then 1 else if v < 0x800 then 2 else if v < 0x1_0000 then 3 else 4
  }

  /** A continuation byte carrying the low six bits of `v`. */
  function Cont(v: nat): (b: cchar)
    ensures IsHigh(b) && b as int < 0xC0
  {
    (0x80 + v % 64) as char
  }

  /** The bytes of one code point; NUL is not encoded here because the C
      side cannot hold it in a string. */
  function EncodeChar(c: char): (b: seq<cchar>)
    requires c != '\0'
    ensures |b| == Width(c)
    ensures |b| == 1 ==> b[0] == c
    ensures |b| > 1 ==> forall k | 0 <= k < |b| :: IsHigh(b[k])
  {
    var v := c as int;
    if v < 0x80 then [c]
    else if v < 0x800 then [(0xC0 + v / 64) as char, Cont(v)]
    else if v < 0x1_0000 then [(0xE0 + v / 4096) as char, Cont(v / 64), Cont(v)]
    else [(0xF0 + v / 0x4_0000) as char, Cont(v / 4096), Cont(v / 64), Cont(v)]
  }

  /** The bytes of a NUL-free text. */
  function Encode(s: string): (b: seq<cchar>)
    requires '\0' !in s
    ensures |s| <= |b| <= 4 * |s|
  {
    if s == [] then [] else EncodeChar(s[0]) + Encode(s[1..])
  }

  /** How many bytes a text takes once encoded. */
  function ByteLength(s: string): (n: nat)
    ensures |s| <= n <= 4 * |s|
  {
    if s == [] then 0 else Width(s[0]) + ByteLength(s[1..])
  }

  lemma {:induction false} EncodeLength(s: string)
    requires '\0' !in s
    ensures |Encode(s)| == ByteLength(s)
  {
    if s != [] {
      assert '\0' !in s[1..];
      EncodeLength(s[1..]);
    }
  }

  /** Encoding is done character by character, so it distributes over
      concatenation. */
  lemma {:induction false} EncodeAppend(s: string, t: string)
    requires '\0' !in s && '\0' !in t
    ensures Encode(s + t) == Encode(s) + Encode(t)
  {
    if s != [] {
      assert (s + t)[1..] == s[1..] + t;
      EncodeAppend(s[1..], t);
    } else {
      assert s + t == t;
    }
  }

  /** An ASCII text is its own encoding. */
  lemma {:induction false} EncodeAscii(s: seq<cchar>)
    requires forall k | 0 <= k < |s| :: s[k] as int < 0x80
    ensures Encode(s) == s
  {
    if s != [] {
      EncodeAscii(s[1..]);
      assert s == [s[0]] + s[1..];
    }
  }

  /** An ASCII byte occurs in the encoding exactly where its character
      occurs in the text: the bytes of a wider character are all 0x80 or
      above. */
  lemma {:induction false} AsciiByteIn(s: string, a: cchar)
    requires '\0' !in s && a as int < 0x80
    ensures a in Encode(s) <==> a in s
  {
    if s != [] {
      AsciiByteIn(s[1..], a);
      var head := EncodeChar(s[0]);
      assert a in head <==> a == s[0];
      assert a in s <==> a == s[0] || a in s[1..];
    }
  }
}

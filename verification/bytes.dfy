/** Bytes as the C and C++ sources see them, and the character classes of the
    C library's <ctype.h> in the default "C" locale.

    A byte is modelled as a char below 256 so that ASCII text can be written as
    string literals. The contents of a NUL-terminated C string are the bytes
    before the terminator, so they are never NUL: `cchar` is that type. */
module Bytes {

  type byte = c: char | c as int < 256

  /** A byte of a C string's contents (anything but NUL). */
  type cchar = c: char | 0 < c as int < 256 witness 'a'

  predicate IsUpper(c: byte) { 'A' <= c <= 'Z' }
  predicate IsLower(c: byte) { 'a' <= c <= 'z' }
  predicate IsDigit(c: byte) { '0' <= c <= '9' }

  /** isalpha in the "C" locale: ASCII letters only. */
  predicate IsAlpha(c: byte) { IsUpper(c) || IsLower(c) }

  /** isalnum in the "C" locale. */
  predicate IsAlnum(c: byte) { IsAlpha(c) || IsDigit(c) }

  /** isspace in the "C" locale: space, \t, \n, \v, \f, \r. */
  predicate IsSpace(c: byte) { c == ' ' || '\t' <= c <= '\r' }

  /** A byte with its high bit set (part of a UTF-8 multi-byte sequence). */
  predicate IsHigh(c: byte) { c as int >= 0x80 }

  /** ASCII-only lower-casing: 'A'..'Z' become 'a'..'z', every other byte stays. */
  function AsciiLower(c: byte): (r: byte)
    ensures IsUpper(c) ==> r as int == c as int + 32 && IsLower(r)
    ensures !IsUpper(c) ==> r == c
    ensures !IsUpper(r)
  {
    if IsUpper(c) then (c as int + 32) as char else c
  }

  /** The byte-wise ASCII lower-casing of a whole string. */
  function AsciiLowerAll(s: seq<byte>): (r: seq<byte>)
    ensures |r| == |s|
    ensures forall i | 0 <= i < |s| :: r[i] == AsciiLower(s[i])
  {
    seq(|s|, i requires 0 <= i < |s| => AsciiLower(s[i]))
  }

  /** The order of strcmp: bytes compare as unsigned values, and a proper
      prefix comes before the longer string. */
  predicate StrLess(a: seq<byte>, b: seq<byte>)
    decreases |a|
  {
    if a == [] then b != []
    else if b == [] then false
    else if a[0] != b[0] then a[0] < b[0]
    else StrLess(a[1..], b[1..])
  }

  /** strcmp reduced to its sign: -1, 0 or 1. */
  function StrCmp(a: seq<byte>, b: seq<byte>): int
  {
    if a == b then 0 else if StrLess(a, b) then -1 else 1
  }

  lemma {:induction false} StrLessIrreflexive(a: seq<byte>)
    ensures !StrLess(a, a)
    decreases |a|
  {
    if a != [] {
      StrLessIrreflexive(a[1..]);
    }
  }

  lemma {:induction false} StrLessTransitive(a: seq<byte>, b: seq<byte>, c: seq<byte>)
    requires StrLess(a, b) && StrLess(b, c)
    ensures StrLess(a, c)
    decreases |a|
  {
    if a != [] && b != [] && c != [] && a[0] == b[0] && b[0] == c[0] {
      StrLessTransitive(a[1..], b[1..], c[1..]);
    }
  }

  /** strcmp's order is total: two different strings are ordered one way. */
  lemma {:induction false} StrLessTotal(a: seq<byte>, b: seq<byte>)
    requires a != b
    ensures StrLess(a, b) != StrLess(b, a)
    decreases |a|
  {
    if a != [] && b != [] && a[0] == b[0] {
      assert a == [a[0]] + a[1..] && b == [b[0]] + b[1..];
      StrLessTotal(a[1..], b[1..]);
    }
  }

  /** The sign of StrCmp is antisymmetric, as strcmp's is. */
  lemma StrCmpAntisymmetric(a: seq<byte>, b: seq<byte>)
    ensures StrCmp(a, b) == -StrCmp(b, a)
    ensures StrCmp(a, b) == 0 <==> a == b
  {
    if a != b {
      StrLessTotal(a, b);
    }
  }
}

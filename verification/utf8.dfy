/** Well-formed UTF-8 byte strings, as defined by the UTF8-octets grammar of section 4 of RFC 3629. */
module Utf8 {
  import opened Bytes

  /** UTF8-tail: a continuation byte 0x80..0xBF. */
  predicate IsTail(b: u8) {
    0x80 <= b <= 0xBF
  }

  /** The length of the well-formed UTF-8 character that starts `s`, or 0 when `s` does not start with one. */
  function CharLen(s: seq<u8>): (n: nat)
    ensures n <= |s| && n <= 4
    ensures n > 0 ==> |s| > 0
    ensures |s| > 0 && s[0] < 0x80 ==> n == 1
    ensures n == 1 ==> s[0] < 0x80
  {
    if |s| == 0 then 0
    else
      var b := s[0];
      if b <= 0x7F then 1
      else if 0xC2 <= b <= 0xDF then
        if |s| >= 2 && IsTail(s[1]) then 2 else 0
      else if b == 0xE0 then
        if |s| >= 3 && 0xA0 <= s[1] <= 0xBF && IsTail(s[2]) then 3 else 0
      else if 0xE1 <= b <= 0xEC || 0xEE <= b <= 0xEF then
        if |s| >= 3 && IsTail(s[1]) && IsTail(s[2]) then 3 else 0
      else if b == 0xED then
        if |s| >= 3 && 0x80 <= s[1] <= 0x9F && IsTail(s[2]) then 3 else 0
      else if b == 0xF0 then
        if |s| >= 4 && 0x90 <= s[1] <= 0xBF && IsTail(s[2]) && IsTail(s[3]) then 4 else 0
      else if 0xF1 <= b <= 0xF3 then
        if |s| >= 4 && IsTail(s[1]) && IsTail(s[2]) && IsTail(s[3]) then 4 else 0
      else if b == 0xF4 then
        if |s| >= 4 && 0x80 <= s[1] <= 0x8F && IsTail(s[2]) && IsTail(s[3]) then 4 else 0
      else 0
  }

  /** `s` is a sequence of well-formed UTF-8 characters (what `String::from_utf8` accepts). */
  predicate ValidUtf8(s: seq<u8>)
    decreases |s|
  {
    |s| == 0 || (CharLen(s) > 0 && ValidUtf8(s[CharLen(s)..]))
  }

  /** Examples of what the grammar rejects: a lone continuation byte, an overlong encoding of NUL,
      an encoded surrogate (U+D800) and a code point above U+10FFFF. */
  lemma Rejections()
    ensures !ValidUtf8([0x80])
    ensures !ValidUtf8([0xC0, 0x80])
    ensures !ValidUtf8([0xED, 0xA0, 0x80])
    ensures !ValidUtf8([0xF4, 0x90, 0x80, 0x80])
  {
  }
}

/** Which byte strings are UTF-8 text: the syntax of section 4 of RFC 3629. */
module Utf8 {
  import opened Types

  predicate Between(b: byte, low: byte, high: byte) {
    low <= b <= high
  }

  predicate IsTail(b: byte) {
    Between(b, 0x80, 0xBF)
  }

  /** The length of the character at the front of `s`, zero when there is none. */
  function CharLength(s: seq<byte>): (n: nat)
    ensures n <= |s|
    ensures n == 0 || n <= 4
  {
    if |s| >= 1 && s[0] <= 0x7F then 1
    else if |s| >= 2 && Between(s[0], 0xC2, 0xDF) && IsTail(s[1]) then 2
    else if |s| >= 3 && IsTail(s[2]) && (
        || (s[0] == 0xE0 && Between(s[1], 0xA0, 0xBF))
        || (s[0] == 0xED && Between(s[1], 0x80, 0x9F))
        || (Between(s[0], 0xE1, 0xEF) && s[0] != 0xED && IsTail(s[1]))) then 3
    else if |s| >= 4 && IsTail(s[2]) && IsTail(s[3]) && (
        || (s[0] == 0xF0 && Between(s[1], 0x90, 0xBF))
        || (s[0] == 0xF4 && Between(s[1], 0x80, 0x8F))
        || (Between(s[0], 0xF1, 0xF3) && IsTail(s[1]))) then 4
    else 0
  }

  predicate ValidUtf8(s: seq<byte>) {
    |s| == 0 || (CharLength(s) > 0 && ValidUtf8(s[CharLength(s)..]))
  }
}

/** Well-formed UTF-8, as `std::str::from_utf8` accepts it: the byte
    sequences of table 3-7 of the Unicode Standard, which are those of
    section 4 of RFC 3629 (no overlong forms, no surrogates, nothing
    above U+10FFFF). */
module Utf8 {
  import opened Nom

  predicate InRange(b: Byte, lo: Byte, hi: Byte) {
    lo <= b <= hi
  }

  /** A continuation byte, 10xxxxxx. */
  predicate IsContinuation(b: Byte) {
    InRange(b, 0x80, 0xBF)
  }

  /** The length of the well-formed sequence that `s` starts with, or 0 if
      `s` does not start with one. */
  function FirstCharLength(s: seq<Byte>): (n: nat)
    requires s != []
    ensures n <= |s|
  {
    var b0 := s[0];
    if b0 <= 0x7F then 1
    else if InRange(b0, 0xC2, 0xDF) then
      if 2 <= |s| && IsContinuation(s[1]) then 2 else 0
    else if b0 == 0xE0 then
      if 3 <= |s| && InRange(s[1], 0xA0, 0xBF) && IsContinuation(s[2]) then 3 else 0
    else if InRange(b0, 0xE1, 0xEC) || InRange(b0, 0xEE, 0xEF) then
      if 3 <= |s| && IsContinuation(s[1]) && IsContinuation(s[2]) then 3 else 0
    else if b0 == 0xED then
      if 3 <= |s| && InRange(s[1], 0x80, 0x9F) && IsContinuation(s[2]) then 3 else 0
    else if b0 == 0xF0 then
      if 4 <= |s| && InRange(s[1], 0x90, 0xBF) && IsContinuation(s[2]) && IsContinuation(s[3]) then 4 else 0
    else if InRange(b0, 0xF1, 0xF3) then
      if 4 <= |s| && IsContinuation(s[1]) && IsContinuation(s[2]) && IsContinuation(s[3]) then 4 else 0
    else if b0 == 0xF4 then
      if 4 <= |s| && InRange(s[1], 0x80, 0x8F) && IsContinuation(s[2]) && IsContinuation(s[3]) then 4 else 0
    else 0
  }

  /** `s` is a concatenation of well-formed UTF-8 sequences. */
  predicate ValidUtf8(s: seq<Byte>)
    decreases |s|, 1
  {
    s == [] || StartsWithChar(s)
  }

  /** `s` starts with a well-formed sequence and the rest is well-formed. */
  predicate StartsWithChar(s: seq<Byte>)
    requires s != []
    decreases |s|, 0
  {
    FirstCharLength(s) > 0 && ValidUtf8(s[FirstCharLength(s)..])
  }

  /** Every byte is an ASCII code. */
  predicate IsAscii(s: seq<Byte>) {
    forall i :: 0 <= i < |s| ==> s[i] < 0x80
  }

  /** ASCII text is valid UTF-8: each byte is a sequence of its own. */
  lemma {:induction false} AsciiIsValidUtf8(s: seq<Byte>)
    requires IsAscii(s)
    ensures ValidUtf8(s)
    decreases |s|
  {
    if s != [] {
      assert FirstCharLength(s) == 1;
      AsciiIsValidUtf8(s[1..]);
    }
  }
}

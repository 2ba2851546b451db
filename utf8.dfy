/**
 * UTF-8 well-formedness, following the byte-sequence grammar of section 4
 * of RFC 3629 (the rule the standard string decoder applies).
 */
module Utf8 {
  import opened Types

  predicate IsTail(b: u8) { 0x80 <= b <= 0xBF }

  /** Length of the well-formed UTF8-char that starts `s`, or 0 if none does. */
  function CharWidth(s: seq<u8>): (n: nat)
    ensures n <= |s| && n <= 4
    ensures n > 0 ==> |s| > 0
  {
    if |s| == 0 then 0
    else
      var b := s[0];
      if b <= 0x7F then 1
      else if 0xC2 <= b <= 0xDF then
        if |s| >= 2 && IsTail(s[1]) then 2 else 0
      else if b == 0xE0 then
        if |s| >= 3 && 0xA0 <= s[1] <= 0xBF && IsTail(s[2]) then 3 else 0
      else if 0xE1 <= b <= 0xEC || 0xEE <= b <= 0xEF then
        if |s| >= 3 && IsTail(s[1]) && IsTail(s[2]) then 3 else 0
      else if b == 0xED then
        if |s| >= 3 && 0x80 <= s[1] <= 0x9F && IsTail(s[2]) then 3 else 0
      else if b == 0xF0 then
        if |s| >= 4 && 0x90 <= s[1] <= 0xBF && IsTail(s[2]) && IsTail(s[3]) then 4 else 0
      else if 0xF1 <= b <= 0xF3 then
        if |s| >= 4 && IsTail(s[1]) && IsTail(s[2]) && IsTail(s[3]) then 4 else 0
      else if b == 0xF4 then
        if |s| >= 4 && 0x80 <= s[1] <= 0x8F && IsTail(s[2]) && IsTail(s[3]) then 4 else 0
      else 0
  }

  /** `s` is a sequence of well-formed UTF8-chars. */
  predicate ValidUtf8(s: seq<u8>)
    decreases |s|
  {
    |s| == 0 || (CharWidth(s) > 0 && ValidUtf8(s[CharWidth(s)..]))
  }

  /** Every ASCII byte string is valid UTF-8. */
  lemma {:induction false} AsciiIsValidUtf8(s: seq<u8>)
    requires forall i :: 0 <= i < |s| ==> s[i] < 0x80
    ensures ValidUtf8(s)
  {
    if |s| > 0 {
      assert CharWidth(s) == 1;
      AsciiIsValidUtf8(s[1..]);
    }
  }
}

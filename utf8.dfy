/**
 * Well-formed UTF-8 as section 4 of RFC 3629 defines it. The decoder calls
 * Rust's `String::from_utf8` on the bytes of each string literal; that library
 * routine accepts exactly the byte sequences this predicate accepts.
 */
module Utf8 {
  import opened Bytes

  /** UTF8-tail = %x80-BF */
  predicate IsTail(b: Byte) {
    0x80 <= b <= 0xBF
  }

  /**
   * The length of the one UTF8-char at the head of `b`, or 0 when `b` does not
   * start with a well-formed UTF8-char.
   */
  function CharWidth(b: seq<Byte>): (n: nat)
    requires |b| > 0
    ensures n <= 4 && n <= |b|
    ensures n == 1 <==> b[0] < 0x80
  {
    var b0 := b[0];
    if b0 < 0x80 then 1
    else if 0xC2 <= b0 <= 0xDF then
      if |b| >= 2 && IsTail(b[1]) then 2 else 0
    else if b0 == 0xE0 then
      if |b| >= 3 && 0xA0 <= b[1] <= 0xBF && IsTail(b[2]) then 3 else 0
    else if 0xE1 <= b0 <= 0xEC || 0xEE <= b0 <= 0xEF then
      if |b| >= 3 && IsTail(b[1]) && IsTail(b[2]) then 3 else 0
    else if b0 == 0xED then
      if |b| >= 3 && 0x80 <= b[1] <= 0x9F && IsTail(b[2]) then 3 else 0
    else if b0 == 0xF0 then
      if |b| >= 4 && 0x90 <= b[1] <= 0xBF && IsTail(b[2]) && IsTail(b[3]) then 4 else 0
    else if 0xF1 <= b0 <= 0xF3 then
      if |b| >= 4 && IsTail(b[1]) && IsTail(b[2]) && IsTail(b[3]) then 4 else 0
    else if b0 == 0xF4 then
      if |b| >= 4 && 0x80 <= b[1] <= 0x8F && IsTail(b[2]) && IsTail(b[3]) then 4 else 0
    else 0
  }

  /** UTF8-octets = *( UTF8-char ) */
  predicate ValidUtf8(b: seq<Byte>)
    decreases |b|
  {
    |b| == 0 || (CharWidth(b) > 0 && ValidUtf8(b[CharWidth(b)..]))
  }

  /** Bytes below 0x80 only: one UTF8-char per byte. */
  predicate IsAscii(b: seq<Byte>) {
    forall i :: 0 <= i < |b| ==> b[i] < 0x80
  }

  lemma {:induction false} AsciiIsValid(b: seq<Byte>)
    requires IsAscii(b)
    ensures ValidUtf8(b)
    decreases |b|
  {
    if |b| > 0 {
      assert CharWidth(b) == 1;
      AsciiIsValid(b[1..]);
    }
  }
}

/** `String::from_utf16_lossy`, which turns the module-path buffer into a path string. */
module Utf16 {

  /** One UTF-16 code unit (`u16`). */
  type u16 = x: int | 0 <= x < 0x1_0000

  /** U+FFFD, which stands in for every unpaired surrogate. */
  const REPLACEMENT: char := '\U{FFFD}'

  predicate IsHighSurrogate(u: int) { 0xD800 <= u < 0xDC00 }

  predicate IsLowSurrogate(u: int) { 0xDC00 <= u < 0xE000 }

  /** The scalar value a high/low surrogate pair stands for. */
  function Combine(high: int, low: int): (c: int)
    requires IsHighSurrogate(high) && IsLowSurrogate(low)
    ensures 0x1_0000 <= c <= 0x10_FFFF
  {
    0x1_0000 + (high - 0xD800) * 0x400 + (low - 0xDC00)
  }

  /** Decodes UTF-16, replacing each unpaired surrogate by U+FFFD. */
  function DecodeLossy(units: seq<u16>): (s: string)
    ensures |s| <= |units|
    ensures (forall i :: 0 <= i < |units| ==> units[i] != 0) ==> forall i :: 0 <= i < |s| ==> s[i] != '\0'
    decreases |units|
  {
    if units == [] then []
    else if IsHighSurrogate(units[0]) && |units| >= 2 && IsLowSurrogate(units[1]) then
      [Combine(units[0], units[1]) as char] + DecodeLossy(units[2..])
    else if IsHighSurrogate(units[0]) || IsLowSurrogate(units[0]) then
      [REPLACEMENT] + DecodeLossy(units[1..])
    else
      [units[0] as char] + DecodeLossy(units[1..])
  }

  /** UTF-16 encoding of a string (one unit below U+10000, a surrogate pair above). */
  function Encode(s: string): (units: seq<u16>)
    ensures |s| <= |units| <= 2 * |s|
  {
    if s == [] then []
    else
      var c := s[0] as int;
      (if c < 0x1_0000 then [c] else [0xD800 + (c - 0x1_0000) / 0x400, 0xDC00 + (c - 0x1_0000) % 0x400])
      + Encode(s[1..])
  }

  /** Decoding is lossless on everything an encoder can produce. */
  lemma {:induction false} DecodeEncode(s: string)
    ensures DecodeLossy(Encode(s)) == s
  {
    if s != [] {
      var c := s[0] as int;
      var rest := Encode(s[1..]);
      DecodeEncode(s[1..]);
      if c < 0x1_0000 {
        assert Encode(s) == [c] + rest;
        assert !IsHighSurrogate(c) && !IsLowSurrogate(c);
        assert (Encode(s))[1..] == rest;
      } else {
        var hi, lo := 0xD800 + (c - 0x1_0000) / 0x400, 0xDC00 + (c - 0x1_0000) % 0x400;
        assert Encode(s) == [hi, lo] + rest;
        assert Combine(hi, lo) == c;
        assert (Encode(s))[2..] == rest;
      }
    }
  }
}

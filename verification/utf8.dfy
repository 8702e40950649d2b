/** Well-formed UTF-8 (The Unicode Standard, section 3.9, Table 3-7), the
    check a byte string must pass before it can be read as a string. */
module Utf8 {
  import opened Parse

  predicate Trailing(b: byte)
  {
    0x80 <= b <= 0xBF
  }

  /** The length of the well-formed sequence that starts `s`, or 0 when `s`
      does not start with one. */
  function HeadLength(s: seq<byte>): (n: nat)
    ensures n <= |s| && n <= 4
    ensures |s| > 0 && s[0] < 0x80 ==> n == 1
  {
    if |s| == 0 then 0
    else
      var b0 := s[0];
      if b0 <= 0x7F then 1
      else if 0xC2 <= b0 <= 0xDF then
        if |s| >= 2 && Trailing(s[1]) then 2 else 0
      else if b0 == 0xE0 then
        if |s| >= 3 && 0xA0 <= s[1] <= 0xBF && Trailing(s[2]) then 3 else 0
      else if 0xE1 <= b0 <= 0xEC || 0xEE <= b0 <= 0xEF then
        if |s| >= 3 && Trailing(s[1]) && Trailing(s[2]) then 3 else 0
      else if b0 == 0xED then
        if |s| >= 3 && 0x80 <= s[1] <= 0x9F && Trailing(s[2]) then 3 else 0
      else if b0 == 0xF0 then
        if |s| >= 4 && 0x90 <= s[1] <= 0xBF && Trailing(s[2]) && Trailing(s[3]) then 4 else 0
      else if 0xF1 <= b0 <= 0xF3 then
        if |s| >= 4 && Trailing(s[1]) && Trailing(s[2]) && Trailing(s[3]) then 4 else 0
      else if b0 == 0xF4 then
        if |s| >= 4 && 0x80 <= s[1] <= 0x8F && Trailing(s[2]) && Trailing(s[3]) then 4 else 0
      else 0
  }

  /** `s` is a concatenation of well-formed sequences. */
  predicate Valid(s: seq<byte>)
    decreases |s|
  {
    |s| == 0 || (HeadLength(s) > 0 && Valid(s[HeadLength(s)..]))
  }
}

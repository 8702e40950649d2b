/** Length-prefixed strings: a ULEB128 byte count, then that many bytes,
    which must be valid UTF-8. */
module StrParse {
  import opened Parse
  import Leb128
  import Utf8

  /** `input` is a ULEB128 group whose value is `|s|`, then `s`, then `rest`. */
  ghost predicate Frames(input: seq<byte>, s: seq<byte>, rest: seq<byte>)
  {
    exists k :: 0 < k <= |input| && Leb128.IsGroup(input[..k]) && Leb128.Value(input[..k]) == |s| && input[k..] == s + rest
  }

  /** Reads a length-prefixed UTF-8 string. A parse is always a framed,
      valid string; the only failure that is not a lack of input is a
      complete byte string that is not UTF-8. */
  function Str(input: seq<byte>): (r: ParseResult<seq<byte>>)
    ensures r.Parsed? ==> Utf8.Valid(r.value) && Frames(input, r.value, r.rest)
    ensures r.Failed? && r.error.Other? ==> exists s, rest :: Frames(input, s, rest) && !Utf8.Valid(s)
  {
    match Leb128.ParseUleb128(input)
    case Failed(e) => Failed(e)
    case Parsed(afterLength, length) =>
      match Take(afterLength, length)
      case Failed(e) => Failed(e)
      case Parsed(rest, bytes) =>
        var k := |input| - |afterLength|;
        assert input[k..] == bytes + rest;
        assert Frames(input, bytes, rest);
        if Utf8.Valid(bytes) then Parsed(rest, bytes) else Failed(Other("invalid utf-8"))
  }

  /** Framed input is read exactly: the string comes back and the bytes
      after it are left over, or, when the string is not UTF-8, the failure
      says the input is malformed rather than short. */
  lemma StrFramed(input: seq<byte>, s: seq<byte>, rest: seq<byte>)
    requires Frames(input, s, rest)
    ensures Utf8.Valid(s) ==> Str(input) == Parsed(rest, s)
    ensures !Utf8.Valid(s) ==> Str(input).Failed? && Str(input).error.Other?
  {
    var k :| 0 < k <= |input| && Leb128.IsGroup(input[..k]) && Leb128.Value(input[..k]) == |s| && input[k..] == s + rest;
    assert input == input[..k] + (s + rest);
    Leb128.ParseGroup(input[..k], s + rest);
    assert (s + rest)[..|s|] == s && (s + rest)[|s|..] == rest;
  }

  /** The bytes the encoder writes for a string: a shortest-form length
      group whose value is the string's size, then the string. */
  function EncodeStr(s: seq<byte>): (r: seq<byte>)
    ensures Frames(r, s, [])
    ensures Leb128.IsCanonical(r[..|r| - |s|])
  {
    var header := Leb128.EncodeUleb128(|s|);
    var r := header + s;
    assert r[..|header|] == header && r[|header|..] == s + [];
    r
  }

  /** An encoded string reads back, leaving whatever followed it. */
  lemma StrEncoded(s: seq<byte>, extra: seq<byte>)
    requires Utf8.Valid(s)
    ensures Str(EncodeStr(s) + extra) == Parsed(extra, s)
  {
    var header := Leb128.EncodeUleb128(|s|);
    assert EncodeStr(s) + extra == header + (s + extra);
    StrAfterGroup(header, s, extra);
  }

  /** A group denoting `|s|`, then `s`, then anything reads back as `s`. */
  lemma StrAfterGroup(header: seq<byte>, s: seq<byte>, extra: seq<byte>)
    requires Leb128.IsGroup(header) && Leb128.Value(header) == |s|
    requires Utf8.Valid(s)
    ensures Str(header + (s + extra)) == Parsed(extra, s)
  {
    Leb128.ParseGroup(header, s + extra);
    assert (s + extra)[..|s|] == s && (s + extra)[|s|..] == extra;
    assert Take(s + extra, |s|) == Parsed(extra, s);
  }

  /** Every strict prefix of an encoded string fails for lack of input,
      never as malformed: a streaming reader can wait for more bytes. */
  lemma StrTruncated(s: seq<byte>, n: nat)
    requires n < |EncodeStr(s)|
    ensures Str(EncodeStr(s)[..n]) == Failed(NotEnoughInput)
  {
    var header := Leb128.EncodeUleb128(|s|);
    var p := EncodeStr(s)[..n];
    if n < |header| {
      assert forall i :: 0 <= i < |p| ==> p[i] == header[i];
    } else {
      assert p == header + s[..n - |header|];
      Leb128.ParseGroup(header, s[..n - |header|]);
    }
  }
}

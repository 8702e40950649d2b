/** Byte-level parsing primitives the stream codec is built on: a byte type,
    the two-way parse error, and the result of a parser that consumes a
    prefix of its input and hands back the rest. */
module Parse {

  newtype byte = b: int | 0 <= b < 256

  /** `NotEnoughInput`: the input ended before a value was complete, so more
      bytes may still make it parse. `Other`: these bytes can never parse. */
  datatype ParseError = NotEnoughInput | Other(description: string)

  /** A parser either yields the unconsumed rest of its input and a value,
      or fails. */
  datatype ParseResult<+T> = Parsed(rest: seq<byte>, value: T) | Failed(error: ParseError)

  /** Reads one byte. Only an empty input fails, and then only for lack of
      input. */
  function U8(input: seq<byte>): (r: ParseResult<byte>)
    ensures r.Failed? <==> |input| == 0
    ensures r.Failed? ==> r.error == NotEnoughInput
    ensures r.Parsed? ==> input == [r.value] + r.rest
  {
    if |input| == 0 then Failed(NotEnoughInput) else Parsed(input[1..], input[0])
  }

  /** Takes exactly `n` bytes. Fails for lack of input, and for nothing else,
      when fewer than `n` remain. */
  function Take(input: seq<byte>, n: nat): (r: ParseResult<seq<byte>>)
    ensures r.Failed? <==> |input| < n
    ensures r.Failed? ==> r.error == NotEnoughInput
    ensures r.Parsed? ==> |r.value| == n && input == r.value + r.rest
  {
    if |input| < n then Failed(NotEnoughInput) else Parsed(input[n..], input[..n])
  }
}

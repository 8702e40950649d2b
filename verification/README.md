# Stream handshake model

A Dafny model of the point-to-point handshake of beelay's `messages::stream`
module. Two peers on a fresh byte stream know nothing about each other, while
the rest of beelay addresses peers by `PeerId`. The handshake has them swap
identities before any application traffic flows. The model covers:

- **the wire `Message` codec.** There are three variants: `HelloDearServer(PeerId)`
  (tag 0), `WhyHelloDearClient(PeerId)` (tag 1) and `Data(Payload)` (tag 2). A
  hello carries its identity as a ULEB128 byte count followed by the bytes.
  `Data` carries the payload codec's bytes with no extra framing. Decoding
  fails with `NotEnoughInput` (wait for more bytes) or `Invalid` (the bytes
  are corrupt).
- **the handshake state machine.** `Accept` and `Connect` build the first
  `Step`. `Connecting.Receive` works out the peer's role from the variant it
  receives and finishes in `Connected`. `Data` is refused.
- **the envelope bridge on `Connected`.** `Receive` turns `Data` into an
  `Envelope` from the peer to us. `Send` keeps only an envelope's payload.

Files, one module each:

- `parse.dfy` (`Parse`): bytes, `ParseError`, `ParseResult`, and the one-byte
  and n-byte readers.
- `leb128.dfy` (`Leb128`): ULEB128 as in DWARF 5, section 7.6. It has an
  encoder, a decoder, and a positional reference definition (`Value`) that
  both are proved against.
- `utf8.dfy` (`Utf8`): well-formed UTF-8, following section 3.9 and Table 3-7
  of The Unicode Standard.
- `strparse.dfy` (`StrParse`): length-prefixed UTF-8 strings.
- `beelay.dfy` (`Beelay`): the crate types `PeerId`, `Payload`, `Envelope`
  and the payload codec.
- `stream.dfy` (`Stream`): everything in `src/messages/stream.rs`.

`PeerId` is a byte sequence constrained to valid UTF-8, because it is a Rust
`String`. `Payload` is an opaque type. Its encoder and parser are passed in as
a `PayloadCodec` value. The only assumption about them is `RoundTrips`:
parsing an encoding gives back the encoded payload. Lemmas that need it take
it as a `requires`.

`Encode` states its own byte layout, and `DecodeEncode` states the round
trip. `Connecting`, `Connected` and `Step` are immutable values, so an
identity fixed by the handshake cannot change afterwards. `Handshake` states
which identity each side ends up holding, and `Connected.TheirPeerId` is the
sender of every envelope that connection receives.

`Decode` follows `stream.rs` in discarding the input left after a message, so
the codec is not a bijection on bytes. Bytes after a hello's identity are
ignored (`DecodeHelloTrailing`). Bytes the payload parser leaves after a
`Data` payload are ignored too (`DecodeData`).

The source of `parse::str` and of the ULEB128 routines (`crate::parse`,
`crate::leb128`) is not part of this model. `StrParse.Str`,
`Leb128.ParseUleb128` and `Leb128.EncodeUleb128` are reconstructions from how
`stream.rs` uses them. The reconstructed ULEB128 reader accepts redundant
encodings such as `0x80 0x00` for 0, as the DWARF decoding algorithm does. The
encoder always writes the unique shortest form (`Leb128.CanonicalUnique`).

## Model

| member | source | states |
|---|---|---|
| Parse.U8 | src/messages/stream.rs:122-123 | reading the tag byte fails exactly on empty input, and then only as not-enough-input; otherwise it splits off the first byte |
| Parse.Take | src/messages/stream.rs:126 | taking an identity's bytes fails, as not-enough-input, exactly when fewer than the announced count remain; otherwise it splits off exactly that many |
| Leb128.EncodeUleb128 | src/messages/stream.rs:109 | the length prefix is a single complete ULEB128 group, in its shortest form, whose positional base-128 value is the length |
| Leb128.ParseUleb128 | src/messages/stream.rs:126 | reading a length fails exactly when no byte ends a group, and only as not-enough-input; a success consumes exactly one group, and the value is that group's positional value |
| Leb128.ParseGroup | src/messages/stream.rs:126 | any complete group followed by any bytes reads back as its value and leaves exactly those bytes |
| Leb128.ParseEncoded | src/messages/stream.rs:109-126 | reading what the length encoder wrote gives back the length and leaves the following bytes alone |
| Leb128.CanonicalUnique | src/messages/stream.rs:109 | every shortest-form group is the encoder's output for its value, so the encoder's form is the unique canonical one |
| StrParse.EncodeStr | src/messages/stream.rs:109-110 | an encoded identity is a shortest-form ULEB128 group whose value is the identity's byte count, followed by the identity and nothing else |
| StrParse.Str | src/messages/stream.rs:126 | a parsed identity is valid UTF-8 and was framed by a length prefix equal to its size; the only failure that is not a lack of input is a complete identity that is not UTF-8 |
| StrParse.StrFramed | src/messages/stream.rs:126 | input that holds a length prefix and then that many bytes is read exactly: valid UTF-8 comes back with the bytes after it left over, and invalid UTF-8 is reported as malformed, not short |
| StrParse.StrEncoded | src/messages/stream.rs:109-126 | an encoded identity followed by any bytes reads back as that identity and leaves those bytes |
| StrParse.StrTruncated | src/messages/stream.rs:126 | every strict prefix of an encoded identity fails as not-enough-input, never as malformed |
| Stream.FromParseError | src/messages/stream.rs:266-274 | a parse failure maps to `NotEnoughInput` exactly when it was a lack of input; any other failure becomes `Invalid` and keeps its description |
| Stream.Tag | src/messages/stream.rs:101-105 | the tag is 0 exactly for `HelloDearServer`, 1 exactly for `WhyHelloDearClient` and 2 exactly for `Data`, so each variant has its own tag and no message gets 3 or more |
| Stream.Encode | src/messages/stream.rs:100-119 | an encoding starts with the message's tag byte. A hello continues with exactly the shortest ULEB128 group for the identity's byte count and then the identity's bytes, which frames the identity. `Data` continues with the payload's bytes and nothing else |
| Stream.Decode | src/messages/stream.rs:121-141 | empty input is `NotEnoughInput`, never `Invalid`; a first byte of 3 or more is `Invalid`; a decoded message's tag is the first byte |
| Stream.DecodeHello | src/messages/stream.rs:125-134 | a hello decodes from exactly those inputs that hold its tag and then a length-prefixed copy of its identity, whatever bytes follow |
| Stream.DecodeHelloNotUtf8 | src/messages/stream.rs:125-133 | a hello whose length prefix and identity bytes are all present, but whose identity is not valid UTF-8, decodes to `Invalid` and not to `NotEnoughInput` |
| Stream.DecodeData | src/messages/stream.rs:135-138 | after tag 2, decoding succeeds exactly when the payload parser succeeds on the rest, and a payload failure keeps its kind (short or malformed) |
| Stream.DecodeHelloTrailing | src/messages/stream.rs:125-133 | bytes after a hello's identity are ignored: an encoded hello followed by anything decodes to that hello |
| Stream.DecodeEncode | src/messages/stream.rs:299-306 | decoding an encoding gives back the message, for all three variants, when the payload codec round-trips |
| Stream.DecodeTruncatedHello | src/messages/stream.rs:122-133 | every strict prefix of an encoded hello, including the empty one, decodes to `NotEnoughInput` |
| Stream.Accept | src/messages/stream.rs:171-173 | the accepting side starts in `Connecting` with its own identity and sends nothing first |
| Stream.Connect | src/messages/stream.rs:179-184 | the connecting side starts in `Connecting` with its own identity and first sends `HelloDearServer` carrying it |
| Stream.Connecting.Receive | src/messages/stream.rs:187-205 | it fails, with `UnexpectedMessage`, exactly on `Data`. Otherwise it always finishes (`Done`, never `Continue`) with our identity kept and the peer's taken from the message. It sends a reply exactly when the message was `HelloDearServer`, and that reply is `WhyHelloDearClient` carrying our identity |
| Stream.Connected.TheirPeerId | src/messages/stream.rs:216-218 | the identity it reports is the sender of every envelope the connection builds from a received `Data` message |
| Stream.Connected.Receive | src/messages/stream.rs:221-230 | it succeeds exactly on `Data`, and any hello fails with `UnexpectedMessage`. The envelope's sender is the peer, its recipient is us, and its payload is the message's payload |
| Stream.Connected.Send | src/messages/stream.rs:233-235 | the outgoing message is `Data` carrying the envelope's payload; the envelope's sender and recipient play no part |
| Stream.Handshake | src/messages/stream.rs:165-205 | an initiator `a` and an acceptor `b` exchanging encoded messages finish in one round trip: the acceptor ends `Connected(b, a)` and answers `WhyHelloDearClient(b)`, the initiator ends `Connected(a, b)` with nothing to send, and each side's `TheirPeerId` is the other's identity |
| Stream.SendReceive | src/messages/stream.rs:215-235 | an envelope sent through `Send`, `Encode` and `Decode` arrives with its payload intact. Its identities are re-derived from the connection: on the sending side's own `Connected` the peer becomes the sender, and on the mirrored far side the sender is the side that sent it |
| Stream.OutOfTurn | src/messages/stream.rs:187-230 | for any decoded input, the handshake refuses it exactly when its tag is `Data`, and a connected bridge refuses it exactly when its tag is a hello |

## Left out

- The payload codec (`Payload::encode` and the payload parser). This is foreign code: it is a parameter, and the only assumption about it is the round-trip predicate `RoundTrips`.
- The source of `parse::str` and of the ULEB128 reader and writer is not available. `StrParse.Str`, `Leb128.ParseUleb128` and `Leb128.EncodeUleb128` are reconstructions: a ULEB128 byte count, that many bytes, and then a UTF-8 check. The model's numbers are unbounded, so a length prefix beyond 64 bits is read instead of being rejected as an overflow, and the `as u64` cast on the encoder side is not modelled.
- Leb128.ParseUleb128: accepts overlong groups with redundant trailing zero digits, so `[0, 0x80, 0x00]` decodes to `HelloDearServer` with an empty identity. The real reader is not visible and might reject such input as `Invalid`, so the model's answer for overlong groups is a guess.
- StrParse.Str: checks that all the announced bytes are present before checking UTF-8, so `[0, 5, 0xFF, 0xFF]` is `NotEnoughInput` rather than `Invalid`. This order is inferred; the real `parse::str` is not visible.
- The text of `Invalid` descriptions and the `ParseError` context formatting. Only the variant matters here; the description is passed through as an uninterpreted string.
- The `Display`, `Debug` and `std::error::Error` impls. They are presentation only.
- The doc-comment example's network loop. It is I/O against the beelay runtime.
- The rest of `Envelope` and `Beelay::handle_event`. Only sender, recipient and payload are modelled.
- The property-test harness. Its round-trip check is restated as the lemma `DecodeEncode`.
- The `Message(MessageInner)` newtype wrapper. It is flattened into one datatype, which makes the same three values constructible.

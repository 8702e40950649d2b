/** The crate-level types the handshake exchanges: peer identities, the
    application payload, the envelopes the router consumes, and the payload's
    own codec, which belongs to code outside the handshake. */
module Beelay {
  import opened Parse
  import Utf8

  /** A peer's identity: the bytes of a string, so always valid UTF-8. */
  type PeerId = s: seq<byte> | Utf8.Valid(s)

  /** The application payload. Its contents are not interpreted here. */
  type Payload(==, !new)

  /** A routed message: who sent it, who it is for, and what it carries. */
  datatype Envelope = Envelope(sender: PeerId, recipient: PeerId, payload: Payload)

  /** The payload's encoder and parser, supplied from outside. */
  datatype PayloadCodec = PayloadCodec(encode: Payload -> seq<byte>, parse: seq<byte> -> ParseResult<Payload>)

  /** What the handshake relies on about the payload codec: parsing an
      encoding gives back the payload that was encoded. */
  ghost predicate RoundTrips(codec: PayloadCodec)
  {
    forall p :: codec.parse(codec.encode(p)).Parsed? && codec.parse(codec.encode(p)).value == p
  }
}

/** The point-to-point handshake: the wire message codec, the `Connecting`
    and `Connected` states, and the bridge between `Data` messages and
    envelopes once both identities are known. */
module Stream {
  import opened Parse
  import Leb128
  import Utf8
  import StrParse
  import opened Beelay

  datatype Option<+T> = None | Some(value: T)

  datatype Result<+T, +E> = Ok(value: T) | Err(error: E)

  /** The three wire messages. The hello variants carry the sender's
      identity; `Data` carries one application payload. */
  datatype Message =
    | HelloDearServer(peer: PeerId)
    | WhyHelloDearClient(peer: PeerId)
    | Data(payload: Payload)
  {
    predicate IsHello()
    {
      HelloDearServer? || WhyHelloDearClient?
    }
  }

  /** Decoding failures. `NotEnoughInput` means the bytes so far are a
      truncated message; `Invalid` means they can never be one. */
  datatype DecodeError = NotEnoughInput | Invalid(description: string)

  /** The only handshake failure: a message that is not legal in the
      current state. */
  datatype Error = UnexpectedMessage

  /** Parser failures become decode failures without losing the difference
      between "wait for more bytes" and "this input is corrupt". */
  function FromParseError(e: ParseError): (r: DecodeError)
    ensures r.NotEnoughInput? <==> e.NotEnoughInput?
    ensures e.Other? ==> r == Invalid(e.description)
  {
    match e
    case NotEnoughInput => DecodeError.NotEnoughInput
    case Other(description) => Invalid(description)
  }

  /** The tag byte that opens every encoded message: a different one for
      each variant, and never 3 or more. */
  function Tag(m: Message): (r: byte)
    ensures r == 0 <==> m.HelloDearServer?
    ensures r == 1 <==> m.WhyHelloDearClient?
    ensures r == 2 <==> m.Data?
  {
    match m
    case HelloDearServer(_) => 0
    case WhyHelloDearClient(_) => 1
    case Data(_) => 2
  }

  /** The wire bytes of a message: the tag byte first; for a hello, a
      ULEB128 group holding the identity's byte count and then the identity
      itself; for `Data`, the payload codec's bytes with nothing around
      them. */
  function Encode(codec: PayloadCodec, m: Message): (r: seq<byte>)
    ensures |r| > 0 && r[0] == Tag(m)
    ensures m.IsHello() ==> r[1..] == Leb128.EncodeUleb128(|m.peer|) + m.peer
    ensures m.IsHello() ==> StrParse.Frames(r[1..], m.peer, [])
    ensures m.Data? ==> r[1..] == codec.encode(m.payload)
  {
    var body := match m
      case HelloDearServer(id) => StrParse.EncodeStr(id)
      case WhyHelloDearClient(id) => StrParse.EncodeStr(id)
      case Data(p) => codec.encode(p);
    assert ([Tag(m)] + body)[1..] == body;
    [Tag(m)] + body
  }

  /** Reads one message. Empty input is short, not malformed; an unknown tag
      is malformed; a decoded message's tag is the first byte. */
  function Decode(codec: PayloadCodec, data: seq<byte>): (r: Result<Message, DecodeError>)
    ensures |data| == 0 ==> r == Err(DecodeError.NotEnoughInput)
    ensures |data| > 0 && data[0] > 2 ==> r.Err? && r.error.Invalid?
    ensures r.Ok? ==> |data| > 0 && data[0] == Tag(r.value)
  {
    match U8(data)
    case Failed(e) => Err(FromParseError(e))
    case Parsed(input, msgType) =>
      if msgType == 0 then
        match StrParse.Str(input)
        case Failed(e) => Err(FromParseError(e))
        case Parsed(_, id) => Ok(HelloDearServer(id))
      else if msgType == 1 then
        match StrParse.Str(input)
        case Failed(e) => Err(FromParseError(e))
        case Parsed(_, id) => Ok(WhyHelloDearClient(id))
      else if msgType == 2 then
        match codec.parse(input)
        case Failed(e) => Err(FromParseError(e))
        case Parsed(_, p) => Ok(Data(p))
      else
        Err(Invalid("invalid message type"))
  }

  /** How a hello tag is decoded: the rest of the input is read as a
      length-prefixed string. */
  lemma DecodeHelloTag(codec: PayloadCodec, t: byte, body: seq<byte>)
    requires t < 2
    ensures var str := StrParse.Str(body);
            && (str.Failed? ==> Decode(codec, [t] + body) == Err(FromParseError(str.error)))
            && (str.Parsed? && t == 0 ==> Decode(codec, [t] + body) == Ok(HelloDearServer(str.value)))
            && (str.Parsed? && t == 1 ==> Decode(codec, [t] + body) == Ok(WhyHelloDearClient(str.value)))
  {
    assert ([t] + body)[1..] == body;
  }

  /** A hello decodes from exactly the inputs that hold its tag and then its
      framed identity, whatever bytes follow. */
  lemma DecodeHello(codec: PayloadCodec, data: seq<byte>, m: Message)
    requires m.IsHello()
    ensures Decode(codec, data) == Ok(m) <==>
              |data| > 0 && data[0] == Tag(m) && exists rest :: StrParse.Frames(data[1..], m.peer, rest)
  {
    if |data| > 0 && data[0] == Tag(m) {
      assert data == [data[0]] + data[1..];
      DecodeHelloTag(codec, data[0], data[1..]);
      if exists rest :: StrParse.Frames(data[1..], m.peer, rest) {
        var rest :| StrParse.Frames(data[1..], m.peer, rest);
        StrParse.StrFramed(data[1..], m.peer, rest);
      }
    }
  }

  /** A hello whose identity bytes are all present but are not UTF-8 is
      malformed, not short: waiting for more input cannot fix it. */
  lemma DecodeHelloNotUtf8(codec: PayloadCodec, data: seq<byte>, s: seq<byte>, rest: seq<byte>)
    requires |data| > 0 && data[0] < 2
    requires StrParse.Frames(data[1..], s, rest) && !Utf8.Valid(s)
    ensures Decode(codec, data).Err? && Decode(codec, data).error.Invalid?
  {
    assert data == [data[0]] + data[1..];
    StrParse.StrFramed(data[1..], s, rest);
    DecodeHelloTag(codec, data[0], data[1..]);
  }

  /** After a `Data` tag the rest of the input belongs to the payload codec:
      decoding succeeds exactly when it does, and its failures are passed on
      with their kind intact. */
  lemma DecodeData(codec: PayloadCodec, data: seq<byte>)
    requires |data| > 0 && data[0] == 2
    ensures match codec.parse(data[1..])
            case Parsed(_, p) => Decode(codec, data) == Ok(Data(p))
            case Failed(e) => Decode(codec, data) == Err(FromParseError(e))
  {
  }

  /** Bytes after a hello's identity are ignored. */
  lemma DecodeHelloTrailing(codec: PayloadCodec, m: Message, extra: seq<byte>)
    requires m.IsHello()
    ensures Decode(codec, Encode(codec, m) + extra) == Ok(m)
  {
    var enc := Encode(codec, m);
    assert enc == [Tag(m)] + StrParse.EncodeStr(m.peer);
    var body := StrParse.EncodeStr(m.peer) + extra;
    assert enc + extra == [Tag(m)] + body;
    StrParse.StrEncoded(m.peer, extra);
    DecodeHelloTag(codec, Tag(m), body);
  }

  /** Decoding an encoding gives back the message, for all three variants,
      provided the payload codec round-trips. */
  lemma DecodeEncode(codec: PayloadCodec, m: Message)
    requires RoundTrips(codec)
    ensures Decode(codec, Encode(codec, m)) == Ok(m)
  {
    if m.IsHello() {
      DecodeHelloTrailing(codec, m, []);
      assert Encode(codec, m) + [] == Encode(codec, m);
    } else {
      assert Encode(codec, m)[1..] == codec.encode(m.payload);
    }
  }

  /** A hello tag followed by a string that is cut short is too short. */
  lemma DecodeShortHello(codec: PayloadCodec, t: byte, body: seq<byte>, data: seq<byte>)
    requires t < 2 && data == [t] + body
    requires StrParse.Str(body) == Failed(ParseError.NotEnoughInput)
    ensures Decode(codec, data) == Err(DecodeError.NotEnoughInput)
  {
    DecodeHelloTag(codec, t, body);
  }

  /** The first `n` bytes of an encoded hello: its tag, then a cut-short
      string. */
  lemma HelloPrefix(codec: PayloadCodec, m: Message, n: nat)
    requires m.IsHello()
    requires 0 < n < |Encode(codec, m)|
    ensures Encode(codec, m)[..n] == [Tag(m)] + StrParse.EncodeStr(m.peer)[..n - 1]
    ensures StrParse.Str(StrParse.EncodeStr(m.peer)[..n - 1]) == Failed(ParseError.NotEnoughInput)
  {
    HelloBytes(codec, m);
    ConsPrefix(Tag(m), StrParse.EncodeStr(m.peer), n);
    StrParse.StrTruncated(m.peer, n - 1);
  }

  lemma HelloBytes(codec: PayloadCodec, m: Message)
    requires m.IsHello()
    ensures Encode(codec, m) == [Tag(m)] + StrParse.EncodeStr(m.peer)
  {
  }

  lemma ConsPrefix(t: byte, body: seq<byte>, n: nat)
    requires 0 < n <= |body| + 1
    ensures ([t] + body)[..n] == [t] + body[..n - 1]
  {
  }

  /** Every strict prefix of an encoded hello is reported as too short,
      never as malformed. */
  lemma DecodeTruncatedHello(codec: PayloadCodec, m: Message, n: nat)
    requires m.IsHello()
    requires n < |Encode(codec, m)|
    ensures Decode(codec, Encode(codec, m)[..n]) == Err(DecodeError.NotEnoughInput)
  {
    if n > 0 {
      HelloPrefix(codec, m, n);
      DecodeShortHello(codec, Tag(m), StrParse.EncodeStr(m.peer)[..n - 1], Encode(codec, m)[..n]);
    }
  }

  /** Waiting for the peer's identity: only our own is known. */
  datatype Connecting = Connecting(us: PeerId)
  {
    /** The peer's role is read off the message alone: a `HelloDearServer`
        means we accepted and must answer with our identity, a
        `WhyHelloDearClient` means we connected and have nothing more to
        send. Either way the handshake is done; `Data` is refused. */
    function Receive(msg: Message): (r: Result<Step, Error>)
      ensures r.Err? <==> msg.Data?
      ensures r.Err? ==> r.error == UnexpectedMessage
      ensures r.Ok? ==> r.value.Done?
      ensures r.Ok? ==> r.value.connected.ourPeerId == us && r.value.connected.theirPeerId == msg.peer
      ensures r.Ok? ==> (r.value.send.Some? <==> msg.HelloDearServer?)
      ensures r.Ok? && r.value.send.Some? ==> r.value.send.value == WhyHelloDearClient(us)
    {
      match msg
      case HelloDearServer(theirPeerId) =>
        Ok(Done(Connected(us, theirPeerId), Some(WhyHelloDearClient(us))))
      case WhyHelloDearClient(theirPeerId) =>
        Ok(Done(Connected(us, theirPeerId), None))
      case _ => Err(UnexpectedMessage)
    }
  }

  /** What a transition leaves behind: the next state, and the message (if
      any) to send before anything else. */
  datatype Step =
    | Continue(state: Connecting, send: Option<Message>)
    | Done(connected: Connected, send: Option<Message>)

  /** The accepting side waits for the other end to speak first. */
  function Accept(us: PeerId): (r: Step)
    ensures r.Continue? && r.state.us == us
    ensures r.send.None?
  {
    Continue(Connecting(us), None)
  }

  /** The connecting side opens by announcing its identity. */
  function Connect(us: PeerId): (r: Step)
    ensures r.Continue? && r.state.us == us
    ensures r.send == Some(HelloDearServer(us))
  {
    Continue(Connecting(us), Some(HelloDearServer(us)))
  }

  /** Both identities are fixed; only application data moves now. */
  datatype Connected = Connected(ourPeerId: PeerId, theirPeerId: PeerId)
  {
    /** The peer's identity, fixed by the handshake: it is the sender of
        every envelope this connection receives. */
    function TheirPeerId(): (r: PeerId)
      ensures forall p :: Receive(Data(p)) == Ok(Envelope(r, ourPeerId, p))
    {
      theirPeerId
    }

    /** Only `Data` is legal once connected; it becomes an envelope from
        the peer to us. */
    function Receive(msg: Message): (r: Result<Envelope, Error>)
      ensures r.Ok? <==> msg.Data?
      ensures r.Err? ==> r.error == UnexpectedMessage
      ensures r.Ok? ==> r.value.sender == theirPeerId && r.value.recipient == ourPeerId
      ensures r.Ok? ==> r.value.payload == msg.payload
    {
      match msg
      case Data(payload) => Ok(Envelope(theirPeerId, ourPeerId, payload))
      case _ => Err(UnexpectedMessage)
    }

    /** Only the payload goes on the wire; the envelope's sender and
        recipient are dropped unchecked. */
    function Send(env: Envelope): (r: Message)
      ensures r.Data? && r.payload == env.payload
    {
      Data(env.payload)
    }
  }

  /** An initiator `a` and an acceptor `b`, exchanging encoded messages,
      finish the handshake in one round trip: each ends up connected with
      the other's identity, and nothing is left to send. */
  lemma Handshake(codec: PayloadCodec, a: PeerId, b: PeerId)
    ensures var initiator, acceptor := Connect(a), Accept(b);
            && initiator.send.Some?
            && acceptor.send.None?
            && var hello := Decode(codec, Encode(codec, initiator.send.value));
            && hello.Ok?
            && var answer := acceptor.state.Receive(hello.value);
            && answer == Ok(Done(Connected(b, a), Some(WhyHelloDearClient(b))))
            && answer.value.connected.TheirPeerId() == a
            && var reply := Decode(codec, Encode(codec, answer.value.send.value));
            && reply.Ok?
            && var finish := initiator.state.Receive(reply.value);
            && finish == Ok(Done(Connected(a, b), None))
            && finish.value.connected.TheirPeerId() == b
  {
    DecodeHelloTrailing(codec, HelloDearServer(a), []);
    assert Encode(codec, HelloDearServer(a)) + [] == Encode(codec, HelloDearServer(a));
    DecodeHelloTrailing(codec, WhyHelloDearClient(b), []);
    assert Encode(codec, WhyHelloDearClient(b)) + [] == Encode(codec, WhyHelloDearClient(b));
  }

  /** Once connected, an envelope sent over the wire arrives with its
      payload intact and its identities re-derived from the handshake, never
      taken from the envelope that was sent: on the sending side's own
      `Connected` the peer becomes the sender, and on the far side (which
      holds the mirrored identities) the sender is the side that sent it. */
  lemma SendReceive(codec: PayloadCodec, c: Connected, env: Envelope)
    requires RoundTrips(codec)
    ensures var msg := Decode(codec, Encode(codec, c.Send(env)));
            && msg.Ok?
            && c.Receive(msg.value) == Ok(Envelope(c.theirPeerId, c.ourPeerId, env.payload))
            && Connected(c.theirPeerId, c.ourPeerId).Receive(msg.value) == Ok(Envelope(c.ourPeerId, c.theirPeerId, env.payload))
  {
    DecodeEncode(codec, c.Send(env));
  }

  /** A connection whose peer speaks out of turn is refused, in either
      direction: `Data` during the handshake, a hello after it. */
  lemma OutOfTurn(codec: PayloadCodec, s: Connecting, c: Connected, data: seq<byte>)
    ensures var msg := Decode(codec, data);
            msg.Ok? ==> (s.Receive(msg.value).Err? <==> |data| > 0 && data[0] == 2)
    ensures var msg := Decode(codec, data);
            msg.Ok? ==> (c.Receive(msg.value).Err? <==> |data| > 0 && data[0] < 2)
  {
  }
}

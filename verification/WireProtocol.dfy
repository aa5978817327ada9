/**
 What the transfer protocol needs of its serializer and hash: the serializer must
 be faithful, the hash may be any function at all.
 */
module WireProtocol {
  import opened Bytes
  import opened Serializer

  datatype Wire = Wire(
    encode: Message -> bytes,
    decode: bytes -> Result<Message, DeserializationError>,
    sha256: bytes -> string)

  /** Every message reads back as it was sent, on one line, and nothing is not a message. */
  ghost predicate Faithful(w: Wire) {
    && (forall m :: w.decode(w.encode(m)) == Ok(m) && NEWLINE !in w.encode(m))
    && w.decode([]).Err?
  }

  /** Decoding that also insists on the message type the protocol state calls for. */
  function DecodeAs(w: Wire, raw: bytes, expected: MessageType): (r: Result<Message, DeserializationError>)
    ensures r.Ok? ==> TypeOf(r.value) == expected
  {
    match w.decode(raw)
    case Err(e) => Err(e)
    case Ok(m) => if TypeOf(m) == expected then Ok(m) else Err(WrongType)
  }

  /** The program's own serializer, with a hash of the caller's choice. */
  function JsonWire(sha256: bytes -> string): Wire {
    Wire(Encode, Decode, sha256)
  }

  lemma NothingIsNoMessage()
    ensures Decode([]).Err?
  {
  }

  lemma JsonEncodesFaithfully(m: Message)
    ensures Decode(Encode(m)) == Ok(m) && NEWLINE !in Encode(m)
  {
    DecodeEncoded(m);
    EncodingHasNoNewline(m);
  }

  /** The program's serializer is faithful: escaped JSON in UTF-8 never contains a line feed and always reads back. */
  lemma JsonIsFaithful(sha256: bytes -> string)
    ensures Faithful(JsonWire(sha256))
  {
    var w := JsonWire(sha256);
    NothingIsNoMessage();
    forall m
      ensures w.decode(w.encode(m)) == Ok(m) && NEWLINE !in w.encode(m)
    {
      JsonEncodesFaithfully(m);
    }
  }
}

/**
 The wire messages of a transfer and their codec: a model instance becomes
 UTF-8 JSON, and raw bytes become a model instance through the `type` tag.
 */
module Serializer {
  import opened Bytes
  import Json
  import Utf8

  datatype MessageType =
    | HANDSHAKE_REQUEST | HANDSHAKE_RESPONSE | VOUCH | REVOKE | FILE_REQUEST | FILE_REQUEST_ACK
    | FILE_REQUEST_REJECT | CHUNK_HEADER | TRANSFER_COMPLETE | ERROR

  datatype RejectReason = NO_TRUST_PATH | RATE_LIMITED | FILE_NOT_FOUND | INTERNAL_ERROR

  datatype Message =
    | FileRequest(requestId: string, fileHash: string, rangeStart: int, rangeEnd: int, senderId: string)
    | FileRequestAck(requestId: string, chunkSize: int)
    | FileRequestReject(requestId: string, reason: RejectReason, detail: string)
    | ChunkHeader(requestId: string, rangeStart: int, rangeEnd: int, chunkSize: int, checksum: string)
    | TransferComplete(requestId: string, totalBytes: int)
    | ErrorMessage(failedRequest: Option<string>, code: string, detail: string)

  datatype DeserializationError = NotJson | MissingType | UnknownType | SchemaMismatch | WrongType | NotModelled

  function TypeName(t: MessageType): string {
    match t
    case HANDSHAKE_REQUEST => "handshake_request"
    case HANDSHAKE_RESPONSE => "handshake_response"
    case VOUCH => "vouch"
    case REVOKE => "revoke"
    case FILE_REQUEST => "file_request"
    case FILE_REQUEST_ACK => "file_request_ack"
    case FILE_REQUEST_REJECT => "file_request_reject"
    case CHUNK_HEADER => "chunk_header"
    case TRANSFER_COMPLETE => "transfer_complete"
    case ERROR => "error"
  }

  /** The message type a tag names; every type is the one its own name names. */
  function TypeNamed(name: string): (r: Option<MessageType>)
    ensures r.Some? ==> TypeName(r.value) == name
  {
    if name == "handshake_request" then Some(HANDSHAKE_REQUEST)
    else if name == "handshake_response" then Some(HANDSHAKE_RESPONSE)
    else if name == "vouch" then Some(VOUCH)
    else if name == "revoke" then Some(REVOKE)
    else if name == "file_request" then Some(FILE_REQUEST)
    else if name == "file_request_ack" then Some(FILE_REQUEST_ACK)
    else if name == "file_request_reject" then Some(FILE_REQUEST_REJECT)
    else if name == "chunk_header" then Some(CHUNK_HEADER)
    else if name == "transfer_complete" then Some(TRANSFER_COMPLETE)
    else if name == "error" then Some(ERROR)
    else None
  }

  function ReasonName(r: RejectReason): string {
    match r
    case NO_TRUST_PATH => "no_trust_path"
    case RATE_LIMITED => "rate_limited"
    case FILE_NOT_FOUND => "file_not_found"
    case INTERNAL_ERROR => "internal_error"
  }

  function ReasonNamed(name: string): Option<RejectReason> {
    if name == "no_trust_path" then Some(NO_TRUST_PATH)
    else if name == "rate_limited" then Some(RATE_LIMITED)
    else if name == "file_not_found" then Some(FILE_NOT_FOUND)
    else if name == "internal_error" then Some(INTERNAL_ERROR)
    else None
  }

  function TypeOf(m: Message): MessageType {
    match m
    case FileRequest(_, _, _, _, _) => FILE_REQUEST
    case FileRequestAck(_, _) => FILE_REQUEST_ACK
    case FileRequestReject(_, _, _) => FILE_REQUEST_REJECT
    case ChunkHeader(_, _, _, _, _) => CHUNK_HEADER
    case TransferComplete(_, _) => TRANSFER_COMPLETE
    case ErrorMessage(_, _, _) => ERROR
  }

  // ---- encode ----

  /** The members after the tag, in the order the model declares its fields. */
  function Fields(m: Message): Json.Members {
    match m
    case FileRequest(id, hash, first, last, sender) =>
      [("request_id", Json.Str(id)), ("file_hash", Json.Str(hash)), ("range_start", Json.Num(first)),
       ("range_end", Json.Num(last)), ("sender_id", Json.Str(sender))]
    case FileRequestAck(id, size) =>
      [("request_id", Json.Str(id)), ("chunk_size", Json.Num(size))]
    case FileRequestReject(id, reason, detail) =>
      [("request_id", Json.Str(id)), ("reason", Json.Str(ReasonName(reason))), ("detail", Json.Str(detail))]
    case ChunkHeader(id, first, last, size, checksum) =>
      [("request_id", Json.Str(id)), ("range_start", Json.Num(first)), ("range_end", Json.Num(last)),
       ("chunk_size", Json.Num(size)), ("checksum", Json.Str(checksum))]
    case TransferComplete(id, total) =>
      [("request_id", Json.Str(id)), ("total_bytes", Json.Num(total))]
    case ErrorMessage(id, code, detail) =>
      [("request_id", if id.Some? then Json.Str(id.value) else Json.Null), ("code", Json.Str(code)),
       ("detail", Json.Str(detail))]
  }

  function Payload(m: Message): Json.Members {
    [("type", Json.Str(TypeName(TypeOf(m))))] + Fields(m)
  }

  function Encode(m: Message): bytes {
    Utf8.Encode(Json.Print(Payload(m)))
  }

  // ---- decode ----

  function Text(p: Json.Members, key: string): Option<string> {
    match Json.Lookup(p, key)
    case Some(Str(text)) => Some(text)
    case _ => None
  }

  function TextOr(p: Json.Members, key: string, default: string): Option<string> {
    if Json.Lookup(p, key).None? then Some(default) else Text(p, key)
  }

  function Int(p: Json.Members, key: string): Option<int> {
    match Json.Lookup(p, key)
    case Some(Num(number)) => Some(number)
    case _ => None
  }

  /** Schema validation of a payload against the model its tag selects. */
  function Validate(t: MessageType, p: Json.Members): Result<Message, DeserializationError> {
    match t
    case FILE_REQUEST =>
      (match (Text(p, "request_id"), Text(p, "file_hash"), Int(p, "range_start"), Int(p, "range_end"),
               Text(p, "sender_id"))
       case (Some(id), Some(hash), Some(first), Some(last), Some(sender)) =>
         Ok(FileRequest(id, hash, first, last, sender))
       case _ => Err(SchemaMismatch))
    case FILE_REQUEST_ACK =>
      (match (Text(p, "request_id"), Int(p, "chunk_size"))
       case (Some(id), Some(size)) => Ok(FileRequestAck(id, size))
       case _ => Err(SchemaMismatch))
    case FILE_REQUEST_REJECT =>
      (match (Text(p, "request_id"), Text(p, "reason"), TextOr(p, "detail", ""))
       case (Some(id), Some(name), Some(detail)) =>
         (match ReasonNamed(name)
          case Some(reason) => Ok(FileRequestReject(id, reason, detail))
          case None => Err(SchemaMismatch))
       case _ => Err(SchemaMismatch))
    case CHUNK_HEADER =>
      (match (Text(p, "request_id"), Int(p, "range_start"), Int(p, "range_end"), Int(p, "chunk_size"),
               Text(p, "checksum"))
       case (Some(id), Some(first), Some(last), Some(size), Some(checksum)) =>
         Ok(ChunkHeader(id, first, last, size, checksum))
       case _ => Err(SchemaMismatch))
    case TRANSFER_COMPLETE =>
      (match (Text(p, "request_id"), Int(p, "total_bytes"))
       case (Some(id), Some(total)) => Ok(TransferComplete(id, total))
       case _ => Err(SchemaMismatch))
    case ERROR =>
      (match (Json.Lookup(p, "request_id"), Text(p, "code"), TextOr(p, "detail", ""))
       case (Some(Str(id)), Some(code), Some(detail)) => Ok(ErrorMessage(Some(id), code, detail))
       case (Some(Null), Some(code), Some(detail)) => Ok(ErrorMessage(None, code, detail))
       case (None, Some(code), Some(detail)) => Ok(ErrorMessage(None, code, detail))
       case _ => Err(SchemaMismatch))
    case _ => Err(NotModelled)
  }

  /** The model that the tag of a payload selects, and the payload as an instance of it. */
  function FromPayload(p: Json.Members): Result<Message, DeserializationError> {
    match Json.Lookup(p, "type")
    case None => Err(MissingType)
    case Some(Str(name)) =>
      (match TypeNamed(name)
       case None => Err(UnknownType)
       case Some(t) => Validate(t, p))
    case _ => Err(UnknownType)
  }

  function Decode(raw: bytes): (r: Result<Message, DeserializationError>) {
    match Utf8.Decode(raw)
    case None => Err(NotJson)
    case Some(text) =>
      match Json.Parse(text)
      case None => Err(NotJson)
      case Some(p) => FromPayload(p)
  }

  // ---- properties ----

  lemma {:induction false} LookupDistinct(p: Json.Members, i: nat)
    requires i < |p|
    requires forall j :: i < j < |p| ==> p[j].0 != p[i].0
    ensures Json.Lookup(p, p[i].0) == Some(p[i].1)
  {
    if i < |p| - 1 {
      assert p[|p| - 1].0 != p[i].0;
      LookupDistinct(p[..|p| - 1], i);
    }
  }

  /** No field of any message shares its name with another field or with the tag. */
  lemma LookupPayload(m: Message)
    ensures forall i :: 0 <= i < |Payload(m)| ==> Json.Lookup(Payload(m), Payload(m)[i].0) == Some(Payload(m)[i].1)
  {
    var p := Payload(m);
    var keys := seq(|p|, i requires 0 <= i < |p| => p[i].0);
    assert p[0].0 == "type";
    match m {
      case FileRequest(_, _, _, _, _) =>
        assert keys == ["type", "request_id", "file_hash", "range_start", "range_end", "sender_id"];
      case FileRequestAck(_, _) =>
        assert keys == ["type", "request_id", "chunk_size"];
      case FileRequestReject(_, _, _) =>
        assert keys == ["type", "request_id", "reason", "detail"];
      case ChunkHeader(_, _, _, _, _) =>
        assert keys == ["type", "request_id", "range_start", "range_end", "chunk_size", "checksum"];
      case TransferComplete(_, _) =>
        assert keys == ["type", "request_id", "total_bytes"];
      case ErrorMessage(_, _, _) =>
        assert keys == ["type", "request_id", "code", "detail"];
    }
    assert forall i, j :: 0 <= i < j < |keys| ==> keys[i] != keys[j];
    forall i | 0 <= i < |p|
      ensures Json.Lookup(p, p[i].0) == Some(p[i].1)
    {
      assert keys[i] == p[i].0;
      assert forall j :: i < j < |p| ==> keys[j] == p[j].0;
      LookupDistinct(p, i);
    }
  }

  lemma LookupField(m: Message, i: nat)
    requires i < |Fields(m)|
    ensures Json.Lookup(Payload(m), Fields(m)[i].0) == Some(Fields(m)[i].1)
  {
    LookupPayload(m);
    assert Payload(m)[i + 1] == Fields(m)[i];
  }

  lemma ValidateRequestOrHeader(m: Message)
    requires m.FileRequest? || m.ChunkHeader?
    ensures Validate(TypeOf(m), Payload(m)) == Ok(m)
  {
    LookupField(m, 0);
    LookupField(m, 1);
    LookupField(m, 2);
    LookupField(m, 3);
    LookupField(m, 4);
  }

  lemma ValidatePayload(m: Message)
    ensures Validate(TypeOf(m), Payload(m)) == Ok(m)
  {
    if m.FileRequest? || m.ChunkHeader? {
      ValidateRequestOrHeader(m);
    } else {
      LookupField(m, 0);
      LookupField(m, 1);
      if |Fields(m)| == 3 {
        LookupField(m, 2);
      }
    }
  }

  lemma LookupTag(m: Message)
    ensures Json.Lookup(Payload(m), "type") == Some(Json.Str(TypeName(TypeOf(m))))
  {
    LookupPayload(m);
    assert Payload(m)[0] == ("type", Json.Str(TypeName(TypeOf(m))));
  }

  lemma TypeNamedByName(t: MessageType)
    ensures TypeNamed(TypeName(t)) == Some(t)
  {
  }

  /** Every message reads back from the wire as it was sent. */
  lemma DecodeEncoded(m: Message)
    ensures Decode(Encode(m)) == Ok(m)
  {
    Json.ParsePrinted(Payload(m));
    Utf8.DecodeEncoded(Json.Print(Payload(m)));
    ValidatePayload(m);
    LookupTag(m);
    TypeNamedByName(TypeOf(m));
  }

  // ---- the fields on the wire ----

  predicate Has(p: Json.Members, name: string, v: Json.Value) { Json.Lookup(p, name) == Some(v) }

  /** A field with a default may be missing. */
  predicate HasOr(p: Json.Members, name: string, v: Json.Value, default: Json.Value) {
    Has(p, name, v) || (Json.Lookup(p, name) == None && v == default)
  }

  /** A rejection's reason as the protocol spells it. */
  function ReasonValue(r: RejectReason): Json.Value {
    match r
    case NO_TRUST_PATH => Json.Str("no_trust_path")
    case RATE_LIMITED => Json.Str("rate_limited")
    case FILE_NOT_FOUND => Json.Str("file_not_found")
    case INTERNAL_ERROR => Json.Str("internal_error")
  }

  /** The members hold this message, under the names the protocol gives its fields, and in any order. */
  predicate WireForm(m: Message, p: Json.Members) {
    match m
    case FileRequest(id, hash, first, last, sender) =>
      && Has(p, "type", Json.Str("file_request"))
      && Has(p, "request_id", Json.Str(id)) && Has(p, "file_hash", Json.Str(hash))
      && Has(p, "range_start", Json.Num(first)) && Has(p, "range_end", Json.Num(last))
      && Has(p, "sender_id", Json.Str(sender))
    case FileRequestAck(id, size) =>
      && Has(p, "type", Json.Str("file_request_ack"))
      && Has(p, "request_id", Json.Str(id)) && Has(p, "chunk_size", Json.Num(size))
    case FileRequestReject(id, reason, detail) =>
      && Has(p, "type", Json.Str("file_request_reject"))
      && Has(p, "request_id", Json.Str(id)) && Has(p, "reason", ReasonValue(reason))
      && HasOr(p, "detail", Json.Str(detail), Json.Str(""))
    case ChunkHeader(id, first, last, size, checksum) =>
      && Has(p, "type", Json.Str("chunk_header"))
      && Has(p, "request_id", Json.Str(id))
      && Has(p, "range_start", Json.Num(first)) && Has(p, "range_end", Json.Num(last))
      && Has(p, "chunk_size", Json.Num(size)) && Has(p, "checksum", Json.Str(checksum))
    case TransferComplete(id, total) =>
      && Has(p, "type", Json.Str("transfer_complete"))
      && Has(p, "request_id", Json.Str(id)) && Has(p, "total_bytes", Json.Num(total))
    case ErrorMessage(id, code, detail) =>
      && Has(p, "type", Json.Str("error"))
      && HasOr(p, "request_id", if id.Some? then Json.Str(id.value) else Json.Null, Json.Null)
      && Has(p, "code", Json.Str(code)) && HasOr(p, "detail", Json.Str(detail), Json.Str(""))
  }

  lemma LongPayloadForm(m: Message)
    requires m.FileRequest? || m.ChunkHeader?
    ensures WireForm(m, Payload(m))
  {
    LookupTag(m);
    LookupField(m, 0);
    LookupField(m, 1);
    LookupField(m, 2);
    LookupField(m, 3);
    LookupField(m, 4);
  }

  lemma ShortPayloadForm(m: Message)
    requires !m.FileRequest? && !m.ChunkHeader?
    ensures WireForm(m, Payload(m))
  {
    LookupTag(m);
    LookupField(m, 0);
    LookupField(m, 1);
    if |Fields(m)| == 3 {
      LookupField(m, 2);
    }
  }

  /** What is sent is UTF-8 for a JSON object whose members are the message's fields, under the protocol's names. */
  lemma EncodedForm(m: Message) returns (text: string, p: Json.Members)
    ensures Utf8.Decode(Encode(m)) == Some(text) && Json.Parse(text) == Some(p)
    ensures WireForm(m, p) && |p| == match m
                                     case FileRequest(_, _, _, _, _) => 6
                                     case ChunkHeader(_, _, _, _, _) => 6
                                     case FileRequestReject(_, _, _) => 4
                                     case ErrorMessage(_, _, _) => 4
                                     case _ => 3
  {
    p := Payload(m);
    text := Json.Print(p);
    Json.ParsePrinted(p);
    Utf8.DecodeEncoded(text);
    if m.FileRequest? || m.ChunkHeader? {
      LongPayloadForm(m);
    } else {
      ShortPayloadForm(m);
    }
  }

  lemma ReasonNamedIff(name: string, r: RejectReason)
    ensures ReasonNamed(name) == Some(r) <==> Json.Str(name) == ReasonValue(r)
  {
  }

  lemma ValidateIff(m: Message, p: Json.Members)
    requires Has(p, "type", Json.Str(TypeName(TypeOf(m))))
    ensures Validate(TypeOf(m), p) == Ok(m) <==> WireForm(m, p)
  {
    if m.FileRequestReject? {
      match Json.Lookup(p, "reason") {
        case Some(Str(name)) => ReasonNamedIff(name, m.reason);
        case _ =>
      }
    }
  }

  lemma ValidatedType(t: MessageType, p: Json.Members)
    ensures Validate(t, p).Ok? ==> TypeOf(Validate(t, p).value) == t
  {
  }

  lemma FormHasTag(m: Message, p: Json.Members)
    requires WireForm(m, p)
    ensures Has(p, "type", Json.Str(TypeName(TypeOf(m))))
  {
  }

  lemma FormIsRead(m: Message, p: Json.Members)
    requires WireForm(m, p)
    ensures FromPayload(p) == Ok(m)
  {
    FormHasTag(m, p);
    TypeNamedByName(TypeOf(m));
    ValidateIff(m, p);
  }

  lemma ReadHasForm(m: Message, p: Json.Members)
    requires FromPayload(p) == Ok(m)
    ensures WireForm(m, p)
  {
    ValidatedType(TypeNamed(Json.Lookup(p, "type").value.text).value, p);
    ValidateIff(m, p);
  }

  /** Exactly which bytes decode to a message: UTF-8 for a JSON object that holds it. */
  lemma DecodeIff(raw: bytes, m: Message)
    ensures Decode(raw) == Ok(m) <==>
            && Utf8.Decode(raw).Some? && Json.Parse(Utf8.Decode(raw).value).Some?
            && WireForm(m, Json.Parse(Utf8.Decode(raw).value).value)
  {
    if Utf8.Decode(raw).Some? && Json.Parse(Utf8.Decode(raw).value).Some? {
      var p := Json.Parse(Utf8.Decode(raw).value).value;
      if WireForm(m, p) {
        FormIsRead(m, p);
      }
      if FromPayload(p) == Ok(m) {
        ReadHasForm(m, p);
      }
    }
  }

  /** An encoded message is one line: the frame delimiter cannot occur inside it. */
  lemma EncodingHasNoNewline(m: Message)
    ensures NEWLINE !in Encode(m)
    ensures Encode(m) != []
  {
    var text := Json.Print(Payload(m));
    Json.PrintOneLine(Payload(m));
    assert '\n' !in text;
    Utf8.NoNewlineInEncoding(text);
  }
}

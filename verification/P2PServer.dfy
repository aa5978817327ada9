/**
 The seeding side of an agent: the trust gate, the range clamp and the frame writer
 of a transfer, and the trust decision of a handshake.
 */
module P2PServer {
  import opened Bytes
  import opened Decimal
  import opened Serializer
  import opened Storage
  import opened WireProtocol
  import FileServer
  import Trust
  import Utf8

  /** An HTTP exchange ends with a status and a body, or breaks off in transit. */
  datatype HttpResult = Http(status: int, body: bytes) | Broken

  datatype HandshakeRequest = HandshakeRequest(senderId: string, chain: seq<Trust.Vouch>, nonce: string)

  /** How a handshake request is answered. */
  datatype HandshakeReply =
    | Unreachable | Refused(status: int) | Malformed
    | Response(senderId: string, signature: string)

  // ---- trust decisions ----

  /** The server's answer to a handshake that presents `chain`. */
  predicate HandshakeAccepted(v: Trust.View, log: Trust.SignatureLog, trustAll: bool, sender: string,
      chain: seq<Trust.Vouch>, now: Trust.Time) {
    trustAll || Trust.Accepted(v, log, sender, chain, now)
  }

  /** The server's trust gate on a transfer request. */
  predicate GateOpen(trustAll: bool, anchors: set<string>, sender: string) {
    trustAll || sender in anchors
  }

  /** The transfer gate is open to exactly the senders whose handshake with an empty chain would be accepted. */
  lemma GateIsEmptyChainHandshake(v: Trust.View, log: Trust.SignatureLog, trustAll: bool, sender: string,
      now: Trust.Time)
    ensures GateOpen(trustAll, v.anchors, sender) <==> HandshakeAccepted(v, log, trustAll, sender, [], now)
  {
  }

  /** A handshake accepted only through a vouch chain leaves the transfer gate closed. */
  lemma ChainHandshakeExample() returns (v: Trust.View, log: Trust.SignatureLog, chain: seq<Trust.Vouch>)
    ensures HandshakeAccepted(v, log, false, "C", chain, 0)
    ensures !GateOpen(false, v.anchors, "C")
  {
    var e := Trust.Vouch("A", "C", 0, 1, "");
    v := Trust.View({"A"}, {}, 3);
    log := {Trust.Signed("A", Trust.VouchSigningBytes("A", "C", 0, 1), "")};
    chain := [e];
    assert Trust.Usable(v, log, e, 0);
  }

  // ---- the transfer as a function ----

  /** The bytes of a response: JSON lines around the raw payload. */
  function Layout(ack: bytes, header: bytes, data: bytes, complete: bytes): bytes {
    ack + [NEWLINE] + header + [NEWLINE] + data + [NEWLINE] + complete
  }

  /** The response body for the bytes `data` found at `first` to `last`. */
  function TransferBody(w: Wire, requestId: string, first: int, last: int, data: bytes): bytes {
    Layout(w.encode(FileRequestAck(requestId, last - first + 1)),
           w.encode(ChunkHeader(requestId, first, last, |data|, w.sha256(data))),
           data,
           w.encode(TransferComplete(requestId, |data|)))
  }

  function DescribeError(e: DeserializationError): string {
    match e
    case NotJson => "not valid JSON"
    case MissingType => "message missing required 'type' field"
    case UnknownType => "unknown message type"
    case SchemaMismatch => "payload failed schema validation"
    case WrongType => "unexpected message type"
    case NotModelled => "message outside the transfer protocol"
  }

  function Refusal(w: Wire, requestId: string, reason: RejectReason, detail: string): HttpResult {
    Http(403, w.encode(FileRequestReject(requestId, reason, detail)))
  }

  /** What a server with these anchors and this backend answers to a raw transfer request. */
  function Transfer(w: Wire, trustAll: bool, anchors: set<string>, store: FileServer.Backend, raw: bytes): HttpResult {
    match DecodeAs(w, raw, FILE_REQUEST)
    case Err(e) => Http(400, w.encode(ErrorMessage(None, "bad_request", DescribeError(e))))
    case Ok(msg) => Admit(w, trustAll, anchors, store, msg)
  }

  /** The human-readable part of a refusal. */
  function RefusalDetail(trustAll: bool, anchors: set<string>, files: Files, msg: Message): string
    requires msg.FileRequest?
  {
    if !GateOpen(trustAll, anchors, msg.senderId) then "sender not in trust anchors; complete handshake first"
    else if msg.fileHash !in files then "no file with hash " + msg.fileHash
    else RangeDetail(msg.rangeStart, msg.rangeEnd, |files[msg.fileHash]|)
  }

  function RangeDetail(start: int, end: int, fileSize: nat): string {
    "invalid range [" + PrintInt(start) + ", " + PrintInt(end) + "] for file size " + PrintInt(fileSize)
  }

  function Admit(w: Wire, trustAll: bool, anchors: set<string>, store: FileServer.Backend, msg: Message): HttpResult
    requires msg.FileRequest?
  {
    if !GateOpen(trustAll, anchors, msg.senderId) then
      Refusal(w, msg.requestId, NO_TRUST_PATH, RefusalDetail(trustAll, anchors, store.files, msg))
    else if msg.fileHash !in store.files then
      Refusal(w, msg.requestId, FILE_NOT_FOUND, RefusalDetail(trustAll, anchors, store.files, msg))
    else
      var fileSize := |store.files[msg.fileHash]|;
      var rangeEnd := Min(msg.rangeEnd, fileSize - 1);
      if msg.rangeStart > rangeEnd then
        Refusal(w, msg.requestId, INTERNAL_ERROR, RefusalDetail(trustAll, anchors, store.files, msg))
      else
        match store.read(msg.fileHash, msg.rangeStart, rangeEnd)
        case Err(_) => Broken
        case Ok(data) => Http(200, TransferBody(w, msg.requestId, msg.rangeStart, rangeEnd, data))
  }

  // ---- the server ----

  class P2PServer {
    const devTrustAll: bool
    const trustEngine: Trust.TrustEngine
    const storage: LocalStorage

    constructor (devTrustAll: bool, trustEngine: Trust.TrustEngine, storage: LocalStorage)
      ensures this.devTrustAll == devTrustAll && this.trustEngine == trustEngine && this.storage == storage
    {
      this.devTrustAll := devTrustAll;
      this.trustEngine := trustEngine;
      this.storage := storage;
    }

    /**
     Answers a handshake whose body decoded as given: a body that does not decode is
     a bad request, a sender whose chain is not accepted is refused, and any other
     gets its nonce signed, whatever the nonce is. Only that signature is made.
     */
    method HandleHandshake(request: Result<HandshakeRequest, DeserializationError>, now: Trust.Time,
        signature: string, log: Trust.SignatureLog)
      returns (reply: HandshakeReply, log': Trust.SignatureLog)
      ensures request.Err? ==> reply == Refused(400) && log' == log
      ensures request.Ok? ==>
                var msg := request.value;
                if HandshakeAccepted(trustEngine.Knows(), log, devTrustAll, msg.senderId, msg.chain, now) then
                  && reply == Response(trustEngine.agentId, signature)
                  && log' == log + {Trust.Signed(trustEngine.agentId, Utf8.Encode(msg.nonce), signature)}
                else
                  reply == Refused(403) && log' == log
    {
      if request.Err? {
        return Refused(400), log;
      }
      var msg := request.value;
      if !devTrustAll {
        var result := trustEngine.VerifyChain(msg.senderId, msg.chain, now, log);
        if !result.trusted {
          return Refused(403), log;
        }
      }
      log' := log + {Trust.Signed(trustEngine.agentId, Utf8.Encode(msg.nonce), signature)};
      reply := Response(trustEngine.agentId, signature);
    }

    method HandleTransfer(w: Wire, raw: bytes, offered: nat -> nat) returns (r: HttpResult)
      ensures r == Transfer(w, devTrustAll, trustEngine.trustAnchors, FileServer.LocalBackend(storage.files), raw)
    {
      var msg := DecodeAs(w, raw, FILE_REQUEST);
      if msg.Err? {
        return Http(400, w.encode(ErrorMessage(None, "bad_request", DescribeError(msg.error))));
      }
      r := AnswerRequest(w, msg.value, offered);
    }

    method AnswerRequest(w: Wire, msg: Message, offered: nat -> nat) returns (r: HttpResult)
      requires msg.FileRequest?
      ensures r == Admit(w, devTrustAll, trustEngine.trustAnchors, FileServer.LocalBackend(storage.files), msg)
    {
      if !devTrustAll && msg.senderId !in trustEngine.trustAnchors {
        return Refusal(w, msg.requestId, NO_TRUST_PATH, "sender not in trust anchors; complete handshake first");
      }
      var found := storage.Exists(msg.fileHash);
      if !found {
        return Refusal(w, msg.requestId, FILE_NOT_FOUND, "no file with hash " + msg.fileHash);
      }
      var size := storage.GetSize(msg.fileHash);
      var rangeEnd := Min(msg.rangeEnd, size.value - 1);
      if msg.rangeStart > rangeEnd {
        return Refusal(w, msg.requestId, INTERNAL_ERROR, RangeDetail(msg.rangeStart, msg.rangeEnd, size.value));
      }
      var ack := FileRequestAck(msg.requestId, rangeEnd - msg.rangeStart + 1);
      var frames := StreamResponse(w, msg, rangeEnd, ack, offered);
      r := if frames.Ok? then Http(200, Concat(frames.value)) else Broken;
    }

    /** The frame writer: the payload is read once, hashed and counted, and sent as the pieces it came in. */
    method StreamResponse(w: Wire, msg: Message, rangeEnd: int, ack: Message, offered: nat -> nat)
      returns (r: Result<seq<bytes>, StorageError>)
      requires msg.FileRequest? && ack == FileRequestAck(msg.requestId, rangeEnd - msg.rangeStart + 1)
      ensures r.Ok? <==> FileServer.ReadLocal(storage.files, msg.fileHash, msg.rangeStart, rangeEnd).Ok?
      ensures r.Ok? ==> Concat(r.value) == TransferBody(w, msg.requestId, msg.rangeStart, rangeEnd,
                          FileServer.ReadLocal(storage.files, msg.fileHash, msg.rangeStart, rangeEnd).value)
    {
      var stream := storage.ReadRange(msg.fileHash, msg.rangeStart, rangeEnd, offered);
      if stream.Err? {
        return Err(stream.error);
      }
      var frames := WriteFrames(w, msg.requestId, msg.rangeStart, rangeEnd, ack, stream.value);
      r := Ok(frames);
    }
  }

  method WriteFrames(w: Wire, requestId: string, first: int, last: int, ack: Message, stream: seq<bytes>)
    returns (frames: seq<bytes>)
    requires ack == FileRequestAck(requestId, last - first + 1)
    ensures Concat(frames) == TransferBody(w, requestId, first, last, Concat(stream))
  {
    var hashed, total, chunks := Collect(stream);
    var header := ChunkHeader(requestId, first, last, total, w.sha256(hashed));
    var complete := TransferComplete(requestId, total);
    frames := Lines(w.encode(ack), w.encode(header), chunks, w.encode(complete));
  }

  /** The order in which a response is sent. */
  method Lines(ack: bytes, header: bytes, chunks: seq<bytes>, complete: bytes) returns (frames: seq<bytes>)
    ensures Concat(frames) == Layout(ack, header, Concat(chunks), complete)
  {
    frames := [ack, [NEWLINE], header, [NEWLINE]] + chunks + [[NEWLINE], complete];
    FramesConcat(ack, header, chunks, complete);
  }

  /** The loop that feeds the hasher, counts the bytes and keeps the pieces. */
  method Collect(stream: seq<bytes>) returns (hashed: bytes, total: nat, chunks: seq<bytes>)
    ensures hashed == Concat(stream) && total == |Concat(stream)| && chunks == stream
  {
    hashed, total, chunks := [], 0, [];
    for i := 0 to |stream|
      invariant hashed == Concat(stream[..i]) && total == |hashed| && chunks == stream[..i]
    {
      ConcatPrefix(stream, i);
      hashed := hashed + stream[i];
      total := total + |stream[i]|;
      chunks := chunks + [stream[i]];
    }
    assert stream[..|stream|] == stream;
  }

  lemma FramesConcat(ack: bytes, header: bytes, chunks: seq<bytes>, complete: bytes)
    ensures Concat([ack, [NEWLINE], header, [NEWLINE]] + chunks + [[NEWLINE], complete])
            == Layout(ack, header, Concat(chunks), complete)
  {
    var head := [ack, [NEWLINE], header, [NEWLINE]];
    assert head == [] + [ack] + [[NEWLINE]] + [header] + [[NEWLINE]];
    ConcatAppend([], ack);
    ConcatAppend([ack], [NEWLINE]);
    ConcatAppend([ack] + [[NEWLINE]], header);
    ConcatAppend([ack] + [[NEWLINE]] + [header], [NEWLINE]);
    ConcatJoin(head, chunks);
    ConcatAppend(head + chunks, [NEWLINE]);
    ConcatAppend(head + chunks + [[NEWLINE]], complete);
    assert head + chunks + [[NEWLINE], complete] == head + chunks + [[NEWLINE]] + [complete];
  }

  // ---- properties ----

  /**
   The clamp keeps reads within the file, so what a server answers depends on the
   files it holds and not on the reliable backend that holds them.
   */
  lemma BackendIndependent(w: Wire, trustAll: bool, anchors: set<string>, store: FileServer.Backend,
      store': FileServer.Backend, raw: bytes)
    requires FileServer.Reliable(store) && FileServer.Reliable(store') && store.files == store'.files
    ensures Transfer(w, trustAll, anchors, store, raw) == Transfer(w, trustAll, anchors, store', raw)
  {
  }

  /** A request sent as encoded bytes is answered as the request it is. */
  lemma TransferOfRequest(w: Wire, trustAll: bool, anchors: set<string>, store: FileServer.Backend, msg: Message)
    requires msg.FileRequest? && Faithful(w)
    ensures Transfer(w, trustAll, anchors, store, w.encode(msg)) == Admit(w, trustAll, anchors, store, msg)
  {
  }

  /** The request passes the gate, the file is there, and the range starts inside it. */
  predicate Serves(trustAll: bool, anchors: set<string>, files: Files, msg: Message)
    requires msg.FileRequest?
  {
    && GateOpen(trustAll, anchors, msg.senderId)
    && msg.fileHash in files
    && 0 <= msg.rangeStart <= Min(msg.rangeEnd, |files[msg.fileHash]| - 1)
  }

  /**
   Exactly when a request is answered with a body, and which: the file's own bytes
   up to the clamped end, every announced length being the number of bytes sent.
   */
  lemma HonestAccounting(w: Wire, trustAll: bool, anchors: set<string>, store: FileServer.Backend, msg: Message)
    requires msg.FileRequest? && FileServer.Reliable(store)
    ensures var r := Admit(w, trustAll, anchors, store, msg);
            (r.Http? && r.status == 200) <==> Serves(trustAll, anchors, store.files, msg)
    ensures Serves(trustAll, anchors, store.files, msg) ==>
              var last := Min(msg.rangeEnd, |store.files[msg.fileHash]| - 1);
              var data := store.files[msg.fileHash][msg.rangeStart..last + 1];
              && |data| == last - msg.rangeStart + 1
              && Admit(w, trustAll, anchors, store, msg)
                 == Http(200, TransferBody(w, msg.requestId, msg.rangeStart, last, data))
  {
  }

  /** `r` is a 403 whose body is a rejection of this request for this reason. */
  predicate Rejects(w: Wire, r: HttpResult, requestId: string, reason: RejectReason, detail: string) {
    && r.Http? && r.status == 403
    && match w.decode(r.body)
       case Ok(m) => m == FileRequestReject(requestId, reason, detail)
       case _ => false
  }

  lemma RefusalRejects(w: Wire, requestId: string, reason: RejectReason, detail: string)
    requires Faithful(w)
    ensures Rejects(w, Refusal(w, requestId, reason, detail), requestId, reason, detail)
  {
  }

  /**
   Why a request is refused, as the rejection says that names its id: the gate is tried
   first, then the file, then the range. Only a range that starts before the file is
   let through, and breaks the response off.
   */
  lemma RefusalNamesReason(w: Wire, trustAll: bool, anchors: set<string>, store: FileServer.Backend, msg: Message)
    requires Faithful(w) && msg.FileRequest? && FileServer.Reliable(store)
    ensures var r := Admit(w, trustAll, anchors, store, msg);
            if !trustAll && msg.senderId !in anchors then
              Rejects(w, r, msg.requestId, NO_TRUST_PATH, "sender not in trust anchors; complete handshake first")
            else if msg.fileHash !in store.files then
              Rejects(w, r, msg.requestId, FILE_NOT_FOUND, "no file with hash " + msg.fileHash)
            else if msg.rangeStart > msg.rangeEnd || msg.rangeStart >= |store.files[msg.fileHash]| then
              Rejects(w, r, msg.requestId, INTERNAL_ERROR,
                      "invalid range [" + PrintInt(msg.rangeStart) + ", " + PrintInt(msg.rangeEnd) + "] for file size "
                      + PrintInt(|store.files[msg.fileHash]|))
            else (r == Broken <==> msg.rangeStart < 0) && (r != Broken ==> r.status == 200)
  {
    var detail := RefusalDetail(trustAll, anchors, store.files, msg);
    RefusalRejects(w, msg.requestId, NO_TRUST_PATH, detail);
    RefusalRejects(w, msg.requestId, FILE_NOT_FOUND, detail);
    RefusalRejects(w, msg.requestId, INTERNAL_ERROR, detail);
  }

  /** A body that is no transfer request is answered 400 with a `bad_request` error that names no request. */
  lemma UndecodableIsBadRequest(w: Wire, trustAll: bool, anchors: set<string>, store: FileServer.Backend, raw: bytes)
    requires Faithful(w) && (w.decode(raw).Ok? ==> !w.decode(raw).value.FileRequest?)
    ensures var r := Transfer(w, trustAll, anchors, store, raw);
            && r.Http? && r.status == 400
            && match w.decode(r.body)
               case Ok(ErrorMessage(failed, code, _)) => failed == None && code == "bad_request"
               case _ => false
  {
  }

  /**
   Which handshakes are accepted, check by check: all if trust is off, those in the
   name of an anchor, and those whose chain is not empty, not too long, starts at an
   anchor, ends at the sender, and has every edge signed by its issuer, not expired,
   not revoked and ending where the next begins.
   */
  lemma HandshakeExact(v: Trust.View, log: Trust.SignatureLog, trustAll: bool, sender: string,
      chain: seq<Trust.Vouch>, now: Trust.Time)
    ensures HandshakeAccepted(v, log, trustAll, sender, chain, now) <==>
            || trustAll || sender in v.anchors
            || (&& 1 <= |chain| <= v.maxDepth
                && chain[0].issuerId in v.anchors && chain[|chain| - 1].subjectId == sender
                && forall i :: 0 <= i < |chain| ==>
                     && Trust.Signed(chain[i].issuerId,
                                     Trust.VouchSigningBytes(chain[i].issuerId, chain[i].subjectId,
                                                             chain[i].issuedAt, chain[i].expiresAt),
                                     chain[i].signature) in log
                     && now <= chain[i].expiresAt
                     && (chain[i].issuerId, chain[i].subjectId) !in v.revocations
                     && (i + 1 < |chain| ==> chain[i].subjectId == chain[i + 1].issuerId))
  {
    if trustAll || sender in v.anchors {
    } else if HandshakeAccepted(v, log, trustAll, sender, chain, now) {
      forall i | 0 <= i < |chain|
        ensures Trust.Usable(v, log, chain[i], now)
        ensures i + 1 < |chain| ==> chain[i].subjectId == chain[i + 1].issuerId
      {
      }
    } else {
      Trust.ContiguousForward(chain);
    }
  }
}

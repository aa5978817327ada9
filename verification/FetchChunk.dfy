/**
 The client side of one range: parsing the frames of a response and checking the
 payload against its announced checksum.
 */
module FetchChunk {
  import opened Bytes
  import opened P2PServer
  import opened Serializer
  import opened WireProtocol
  import FileServer

  datatype FetchError = TransportError | PeerRejected | HttpError | BadFrame | ChecksumMismatch

  /** What one fetch contributes to a download: the range and bytes the peer claims. */
  datatype ChunkResult = ChunkResult(peerId: string, rangeStart: int, rangeEnd: int, data: bytes, checksum: string)

  datatype Frames = Frames(ack: Message, header: Message, data: bytes, complete: Message)

  /** The position of the first line feed at or after `from`. */
  function FindNewline(s: bytes, from: nat): (r: Option<nat>)
    ensures r.Some? ==> from <= r.value < |s| && s[r.value] == NEWLINE
    ensures forall k :: from <= k < (if r.Some? then r.value else |s|) ==> s[k] != NEWLINE
    decreases |s| - from
  {
    if from >= |s| then None else if s[from] == NEWLINE then Some(from) else FindNewline(s, from + 1)
  }

  /** Where the first two lines of a response end. */
  function LineEnds(content: bytes): (r: Option<(nat, nat)>)
    ensures r.Some? ==> r.value.0 < r.value.1 < |content|
  {
    match FindNewline(content, 0)
    case None => None
    case Some(idx) =>
      match FindNewline(content, idx + 1)
      case None => None
      case Some(idx2) => Some((idx, idx2))
  }

  /** Decodes the frames of a response whose payload starts at `rawStart`; the announced size alone locates its end. */
  function DecodeFrames(w: Wire, ackLine: bytes, headerLine: bytes, content: bytes, rawStart: nat): (r: Option<Frames>)
    ensures r.Some? ==> r.value.ack.FileRequestAck? && r.value.header.ChunkHeader? && r.value.complete.TransferComplete?
  {
    match (DecodeAs(w, ackLine, FILE_REQUEST_ACK), DecodeAs(w, headerLine, CHUNK_HEADER))
    case (Ok(ack), Ok(header)) =>
      (match DecodeAs(w, SliceFrom(content, rawStart + header.chunkSize + 1), TRANSFER_COMPLETE)
       case Ok(complete) => Some(Frames(ack, header, Slice(content, rawStart, rawStart + header.chunkSize), complete))
       case Err(_) => None)
    case _ => None
  }

  function ParseFrames(w: Wire, content: bytes): (r: Option<Frames>)
    ensures r.Some? ==> r.value.ack.FileRequestAck? && r.value.header.ChunkHeader? && r.value.complete.TransferComplete?
  {
    match LineEnds(content)
    case None => None
    case Some((idx, idx2)) => DecodeFrames(w, content[..idx], content[idx + 1..idx2], content, idx2 + 1)
  }

  /** The result of a fetch, given how the HTTP exchange ended. */
  function Fetch(w: Wire, peerId: string, response: HttpResult): Result<ChunkResult, FetchError> {
    match response
    case Broken => Err(TransportError)
    case Http(status, body) =>
      if status == 403 then Err(PeerRejected)
      else if status != 200 then Err(HttpError)
      else
        match ParseFrames(w, body)
        case None => Err(BadFrame)
        case Some(f) =>
          if w.sha256(f.data) != f.header.checksum then Err(ChecksumMismatch)
          else Ok(ChunkResult(peerId, f.header.rangeStart, f.header.rangeEnd, f.data, f.header.checksum))
  }

  // ---- round trip ----

  /** A response that opens with two lines. */
  function TwoLines(first: bytes, second: bytes, rest: bytes): bytes {
    first + [NEWLINE] + (second + [NEWLINE] + rest)
  }

  lemma FindsEndOfLine(s: bytes, from: nat, line: bytes)
    requires NEWLINE !in line && from + |line| < |s|
    requires s[from..from + |line|] == line && s[from + |line|] == NEWLINE
    ensures FindNewline(s, from) == Some(from + |line|)
  {
  }

  lemma LinesOf(first: bytes, second: bytes, rest: bytes)
    requires NEWLINE !in first && NEWLINE !in second
    ensures var s := TwoLines(first, second, rest);
            var idx2 := |first| + 1 + |second|;
            && LineEnds(s) == Some((|first|, idx2))
            && s[..|first|] == first && s[|first| + 1..idx2] == second && s[idx2 + 1..] == rest
  {
    var s := TwoLines(first, second, rest);
    FindsEndOfLine(s, 0, first);
    FindsEndOfLine(s, |first| + 1, second);
  }

  lemma LayoutOpensWithTwoLines(ack: bytes, header: bytes, data: bytes, complete: bytes)
    ensures Layout(ack, header, data, complete) == TwoLines(ack, header, data + [NEWLINE] + complete)
  {
  }

  lemma PayloadOf(content: bytes, rawStart: nat, data: bytes, complete: bytes)
    requires rawStart <= |content| && content[rawStart..] == data + [NEWLINE] + complete
    ensures Slice(content, rawStart, rawStart + |data|) == data
    ensures SliceFrom(content, rawStart + |data| + 1) == complete
  {
  }

  lemma FramesOf(w: Wire, first: bytes, second: bytes, data: bytes, last: bytes, content: bytes, f: Frames)
    requires NEWLINE !in first && NEWLINE !in second
    requires content == TwoLines(first, second, data + [NEWLINE] + last)
    requires DecodeAs(w, first, FILE_REQUEST_ACK) == Ok(f.ack)
    requires DecodeAs(w, second, CHUNK_HEADER) == Ok(f.header) && f.header.chunkSize == |data|
    requires DecodeAs(w, last, TRANSFER_COMPLETE) == Ok(f.complete) && f.data == data
    ensures ParseFrames(w, content) == Some(f)
  {
    LinesOf(first, second, data + [NEWLINE] + last);
    PayloadOf(content, |first| + 1 + |second| + 1, data, last);
  }

  /**
   Parsing a response recovers its four frames whatever bytes the payload holds,
   line feeds included, provided the header announces the payload's length.
   */
  lemma FrameRoundTrip(w: Wire, ack: Message, header: Message, data: bytes, complete: Message)
    requires Faithful(w)
    requires ack.FileRequestAck? && header.ChunkHeader? && complete.TransferComplete?
    requires header.chunkSize == |data|
    ensures ParseFrames(w, Layout(w.encode(ack), w.encode(header), data, w.encode(complete)))
            == Some(Frames(ack, header, data, complete))
  {
    var first, second, last := w.encode(ack), w.encode(header), w.encode(complete);
    LayoutOpensWithTwoLines(first, second, data, last);
    FramesOf(w, first, second, data, last, Layout(first, second, data, last), Frames(ack, header, data, complete));
  }

  // ---- what a fetch comes to ----

  /** A response that a fetch accepts: a 200 whose frames parse and whose payload has the announced checksum. */
  predicate Intact(w: Wire, response: HttpResult) {
    && response.Http? && response.status == 200
    && ParseFrames(w, response.body).Some?
    && var f := ParseFrames(w, response.body).value;
       w.sha256(f.data) == f.header.checksum
  }

  /** Exactly when a fetch succeeds and with what, and which error it fails with otherwise. */
  lemma FetchExact(w: Wire, peerId: string, response: HttpResult)
    ensures var r := Fetch(w, peerId, response);
            && (r.Ok? <==> Intact(w, response))
            && (r.Ok? ==>
                  var f := ParseFrames(w, response.body).value;
                  && r.value.peerId == peerId && r.value.data == f.data
                  && r.value.rangeStart == f.header.rangeStart && r.value.rangeEnd == f.header.rangeEnd
                  && r.value.checksum == f.header.checksum == w.sha256(r.value.data))
            && (r == Err(TransportError) <==> response == Broken)
            && (r == Err(PeerRejected) <==> response.Http? && response.status == 403)
            && (r == Err(HttpError) <==> response.Http? && response.status !in {200, 403})
            && (r == Err(BadFrame) <==>
                  response.Http? && response.status == 200 && ParseFrames(w, response.body).None?)
  {
  }

  // ---- what a successful parse guarantees ----

  /** A parsed payload has exactly the announced length, unless the announced length is negative. */
  lemma ParsedLength(w: Wire, content: bytes)
    requires Faithful(w) && ParseFrames(w, content).Some?
    ensures var f := ParseFrames(w, content).value;
            |f.data| == f.header.chunkSize <==> f.header.chunkSize >= 0
  {
    var (idx, idx2) := LineEnds(content).value;
    var size := ParseFrames(w, content).value.header.chunkSize;
    assert SliceFrom(content, idx2 + 1 + size + 1) != [];
  }

  /** A response that announces one byte less than none parses, with an empty payload. */
  lemma NegativeSizeExample(w: Wire) returns (content: bytes)
    requires Faithful(w)
    ensures ParseFrames(w, content).Some? && ParseFrames(w, content).value.header.chunkSize == -1
    ensures ParseFrames(w, content).value.data == []
  {
    var ack, header, complete := FileRequestAck("r", 0), ChunkHeader("r", 0, 0, -1, ""), TransferComplete("r", 0);
    content := TwoLines(w.encode(ack), w.encode(header), w.encode(complete));
    LinesOf(w.encode(ack), w.encode(header), w.encode(complete));
    var rawStart := |w.encode(ack)| + 1 + |w.encode(header)| + 1;
    assert Slice(content, rawStart, rawStart - 1) == [] && SliceFrom(content, rawStart) == w.encode(complete);
  }

  // ---- what a server sends ----

  /** The frames that answer `msg` with `data`, the file's bytes from the requested start to `last`. */
  predicate HonestFrames(w: Wire, f: Frames, msg: Message, last: int, data: bytes)
    requires msg.FileRequest?
  {
    && f.ack.FileRequestAck? && f.header.ChunkHeader? && f.complete.TransferComplete?
    && f.ack.requestId == f.header.requestId == f.complete.requestId == msg.requestId
    && f.header.rangeStart == msg.rangeStart && f.header.rangeEnd == last
    && f.ack.chunkSize == f.header.chunkSize == f.complete.totalBytes == |f.data| == last - msg.rangeStart + 1
    && f.header.checksum == w.sha256(f.data)
    && f.data == data
  }

  lemma HonestBody(w: Wire, msg: Message, last: int, data: bytes, body: bytes)
    requires Faithful(w) && msg.FileRequest? && |data| == last - msg.rangeStart + 1
    requires body == TransferBody(w, msg.requestId, msg.rangeStart, last, data)
    ensures ParseFrames(w, body).Some?
    ensures var f := ParseFrames(w, body).value;
            && HonestFrames(w, f, msg, last, data)
            && body == w.encode(f.ack) + [10] + w.encode(f.header) + [10] + f.data + [10] + w.encode(f.complete)
  {
    FrameRoundTrip(w, FileRequestAck(msg.requestId, last - msg.rangeStart + 1),
                   ChunkHeader(msg.requestId, msg.rangeStart, last, |data|, w.sha256(data)), data,
                   TransferComplete(msg.requestId, |data|));
  }

  lemma ServedBody(w: Wire, trustAll: bool, anchors: set<string>, store: FileServer.Backend, msg: Message, last: int,
      r: HttpResult)
    requires Faithful(w) && msg.FileRequest? && FileServer.Reliable(store)
    requires (trustAll || msg.senderId in anchors) && msg.fileHash in store.files
    requires var size := |store.files[msg.fileHash]|;
             && 0 <= msg.rangeStart <= msg.rangeEnd && msg.rangeStart < size
             && last == if msg.rangeEnd < size then msg.rangeEnd else size - 1
    requires r == Transfer(w, trustAll, anchors, store, w.encode(msg))
    ensures var data := store.files[msg.fileHash][msg.rangeStart..last + 1];
            r == Http(200, TransferBody(w, msg.requestId, msg.rangeStart, last, data))
  {
    TransferOfRequest(w, trustAll, anchors, store, msg);
    HonestAccounting(w, trustAll, anchors, store, msg);
  }

  /**
   What a served request gets, as its receiver reads it: a 200 whose body is the ack
   line, the header line, the payload, a line feed and the completion. Every length
   announced is the number of bytes sent, every id is the request's, and the payload
   is the file's own, up to the clamped end.
   */
  lemma ServedFrames(w: Wire, trustAll: bool, anchors: set<string>, store: FileServer.Backend, msg: Message,
      last: int)
    requires Faithful(w) && msg.FileRequest? && FileServer.Reliable(store)
    requires (trustAll || msg.senderId in anchors) && msg.fileHash in store.files
    requires var size := |store.files[msg.fileHash]|;
             && 0 <= msg.rangeStart <= msg.rangeEnd && msg.rangeStart < size
             && last == if msg.rangeEnd < size then msg.rangeEnd else size - 1
    ensures var content := store.files[msg.fileHash];
            var r := Transfer(w, trustAll, anchors, store, w.encode(msg));
            && r.Http? && r.status == 200
            && ParseFrames(w, r.body).Some?
            && var f := ParseFrames(w, r.body).value;
               && HonestFrames(w, f, msg, last, content[msg.rangeStart..last + 1])
               && r.body == w.encode(f.ack) + [10] + w.encode(f.header) + [10] + f.data + [10] + w.encode(f.complete)
  {
    var r := Transfer(w, trustAll, anchors, store, w.encode(msg));
    ServedBody(w, trustAll, anchors, store, msg, last, r);
    HonestBody(w, msg, last, store.files[msg.fileHash][msg.rangeStart..last + 1], r.body);
  }

  // ---- an honest peer ----

  /** The chunk an honest peer's answer yields for `first` to `last`, the end clamped to its file. */
  function HonestChunk(w: Wire, peerId: string, content: bytes, first: nat, last: int): ChunkResult
    requires first <= Min(last, |content| - 1)
  {
    var end := Min(last, |content| - 1);
    var data := content[first..end + 1];
    ChunkResult(peerId, first, end, data, w.sha256(data))
  }

  lemma ServedFetch(w: Wire, peerId: string, answer: HttpResult, requestId: string, first: int, last: int, data: bytes)
    requires Faithful(w) && answer == Http(200, TransferBody(w, requestId, first, last, data))
    ensures Fetch(w, peerId, answer) == Ok(ChunkResult(peerId, first, last, data, w.sha256(data)))
  {
    FrameRoundTrip(w, FileRequestAck(requestId, last - first + 1),
                   ChunkHeader(requestId, first, last, |data|, w.sha256(data)), data,
                   TransferComplete(requestId, |data|));
  }

  /** The same, said of the file the data came from. */
  lemma ServedFromFile(w: Wire, peerId: string, answer: HttpResult, requestId: string, content: bytes, first: nat,
      last: int)
    requires Faithful(w) && first <= Min(last, |content| - 1)
    requires var end := Min(last, |content| - 1);
             answer == Http(200, TransferBody(w, requestId, first, end, content[first..end + 1]))
    ensures Fetch(w, peerId, answer) == Ok(HonestChunk(w, peerId, content, first, last))
  {
    var end := Min(last, |content| - 1);
    var data := content[first..end + 1];
    assert HonestChunk(w, peerId, content, first, last) == ChunkResult(peerId, first, end, data, w.sha256(data));
    ServedFetch(w, peerId, answer, requestId, first, end, data);
  }

  lemma RefusedFetch(w: Wire, peerId: string, answer: HttpResult)
    requires answer.Http? ==> answer.status != 200
    ensures Fetch(w, peerId, answer).Err?
  {
  }

  /**
   Through the request codec, the gate, the clamp, the storage read, the frame
   writer and the frame parser: a fetch from an honest peer succeeds exactly when
   the peer admits the request and the range starts inside its file, and then
   yields the file's own bytes.
   */
  lemma HonestFetch(w: Wire, peerId: string, trustAll: bool, anchors: set<string>, store: FileServer.Backend,
      msg: Message)
    requires Faithful(w) && FileServer.Reliable(store) && msg.FileRequest?
    ensures var r := Fetch(w, peerId, Transfer(w, trustAll, anchors, store, w.encode(msg)));
            if Serves(trustAll, anchors, store.files, msg)
            then r == Ok(HonestChunk(w, peerId, store.files[msg.fileHash], msg.rangeStart, msg.rangeEnd))
            else r.Err?
  {
    TransferOfRequest(w, trustAll, anchors, store, msg);
    HonestAccounting(w, trustAll, anchors, store, msg);
    var answer := Admit(w, trustAll, anchors, store, msg);
    if Serves(trustAll, anchors, store.files, msg) {
      ServedFromFile(w, peerId, answer, msg.requestId, store.files[msg.fileHash], msg.rangeStart, msg.rangeEnd);
    } else {
      RefusedFetch(w, peerId, answer);
    }
  }
}

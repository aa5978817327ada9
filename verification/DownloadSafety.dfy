/**
 What a download guarantees whatever the peers answer, and what it does not.
 */
module DownloadSafety {
  import opened Bytes
  import opened Serializer
  import opened WireProtocol
  import opened P2PServer
  import opened FetchChunk
  import opened Ranges
  import opened Assembly
  import opened Downloader
  import opened Storage

  /** The first `n` bytes of `s`, or all of them if there are fewer. */
  function Head(s: bytes, n: int): bytes { s[..Max(0, Min(n, |s|))] }

  lemma SegmentIsHead(s: bytes, fileSize: int)
    ensures Segment(s, 0, fileSize - 1) == Head(s, fileSize)
  {
  }

  /**
   What a download owes its caller. On success the stored bytes are counted and the
   first `fileSize` of them have the requested hash, hence all of them if no more
   were stored; the failure of the final hash leaves the key absent; every earlier
   failure leaves storage as it was; and no other key is ever touched.
   */
  predicate Safe(w: Wire, files: Files, fileHash: string, fileSize: int, r: Result<DownloadResult, DownloadError>,
      files': Files) {
    match r
    case Ok(result) =>
      && fileHash in files' && files' == files[fileHash := files'[fileHash]]
      && result.fileHash == fileHash && result.verified && result.totalBytes == |files'[fileHash]|
      && w.sha256(Head(files'[fileHash], fileSize)) == fileHash
      && (result.totalBytes <= fileSize ==> w.sha256(files'[fileHash]) == fileHash)
    case Err(e) => files' == if e == HashMismatch then files - {fileHash} else files
  }

  lemma FinishSafe(w: Wire, files: Files, fileHash: string, fileSize: int, chunks: Chunks)
    ensures var (r, files') := Finish(w, files, fileHash, fileSize, chunks);
            Safe(w, files, fileHash, fileSize, r, files')
  {
    var stored := Concat(Datas(chunks));
    SegmentIsHead(stored, fileSize);
    assert |stored| <= fileSize ==> Head(stored, fileSize) == stored;
  }

  /** Safety against peers that answer anything whatsoever. */
  lemma DownloadIsSafe(w: Wire, env: Environment, me: string, maxPeers: int, files: Files, fileHash: string,
      fileSize: int, candidates: seq<PeerAddress>)
    ensures var (r, files') := Outcome(w, env, me, maxPeers, files, fileHash, fileSize, candidates);
            Safe(w, files, fileHash, fileSize, r, files')
  {
    var peers := PeersTried(env, maxPeers, candidates);
    if candidates != [] && peers != [] {
      var ranges := RangesFor(fileSize, |peers|);
      var assembled := Assemble(FetchOutcomes(w, env, me, fileHash, peers, ranges), fileSize);
      if assembled.Ok? {
        FinishSafe(w, files, fileHash, fileSize, assembled.value);
      } else {
        AssembleErrors(FetchOutcomes(w, env, me, fileHash, peers, ranges), fileSize);
      }
    }
  }

  lemma {:induction false} CoverageErrors(chunks: Chunks)
    ensures Coverage(chunks).Err? ==> Coverage(chunks).error.Gap?
  {
    if chunks != [] {
      CoverageErrors(chunks[..|chunks| - 1]);
    }
  }

  lemma AssembleErrors(results: seq<FetchResult>, fileSize: int)
    ensures Assemble(results, fileSize).Err? ==> Assemble(results, fileSize).error != HashMismatch
  {
    CoverageErrors(SortByStart(Successes(results)));
  }

  lemma AssembleAccepts(results: seq<FetchResult>, fileSize: int)
    ensures Assemble(results, fileSize).Ok? <==>
            Successes(results) != [] && Covers(SortByStart(Successes(results)), fileSize)
    ensures Assemble(results, fileSize).Ok? ==> Assemble(results, fileSize).value == SortByStart(Successes(results))
  {
    CoverageOk(SortByStart(Successes(results)), fileSize);
  }

  // ---- how long the stored file is ----

  function RangesFor(fileSize: int, peerCount: nat): seq<Range>
    requires peerCount >= 1
  {
    if fileSize == 0 then [] else Split(fileSize, peerCount, MIN_CHUNK)
  }

  /** The chunks a download fetches from these peers, in order of their declared starts. */
  function Fetched(w: Wire, env: Environment, me: string, fileHash: string, fileSize: int, peers: seq<PeerAddress>)
      : Chunks
    requires peers != []
  {
    SortByStart(Successes(FetchOutcomes(w, env, me, fileHash, peers, RangesFor(fileSize, |peers|))))
  }

  /** How many bytes the payloads hold beyond what their headers declare. */
  function Surplus(chunks: Chunks): int {
    if chunks == [] then 0
    else
      var last := chunks[|chunks| - 1];
      Surplus(chunks[..|chunks| - 1]) + |last.data| - (last.rangeEnd - last.rangeStart + 1)
  }

  lemma {:induction false} PayloadLength(chunks: Chunks)
    ensures |Concat(Datas(chunks))| == DeclaredLength(chunks) + Surplus(chunks)
  {
    if chunks != [] {
      PayloadLength(chunks[..|chunks| - 1]);
      DatasFront(chunks);
    }
  }

  lemma ConsistentHasNoSurplus(chunks: Chunks)
    requires Consistent(chunks)
    ensures Surplus(chunks) == 0
  {
    ConsistentLength(chunks);
    PayloadLength(chunks);
  }

  lemma AssembledLength(results: seq<FetchResult>, fileSize: int)
    requires Assemble(results, fileSize).Ok?
    ensures var chunks := SortByStart(Successes(results));
            Assemble(results, fileSize) == Ok(chunks) && |Concat(Datas(chunks))| == fileSize + Surplus(chunks)
  {
    var chunks := SortByStart(Successes(results));
    AssembleAccepts(results, fileSize);
    CoverageOk(chunks, fileSize);
    DeclaredTelescopes(chunks, fileSize);
    PayloadLength(chunks);
  }

  /** `stored` is longer than the file by the surplus of `chunks`, and has the hash itself unless it is longer. */
  predicate StoredAs(w: Wire, stored: bytes, chunks: Chunks, fileHash: string, fileSize: int) {
    && stored == Concat(Datas(chunks))
    && |stored| - fileSize == Surplus(chunks)
    && w.sha256(Head(stored, fileSize)) == fileHash
    && (Surplus(chunks) <= 0 ==> w.sha256(stored) == fileHash)
  }

  /** What a successful download stores, whatever the peers answered. */
  lemma StoredLength(w: Wire, env: Environment, me: string, maxPeers: int, files: Files, fileHash: string,
      fileSize: int, candidates: seq<PeerAddress>)
    ensures var (r, files') := Outcome(w, env, me, maxPeers, files, fileHash, fileSize, candidates);
            var peers := PeersTried(env, maxPeers, candidates);
            r.Ok? ==>
              && peers != [] && fileHash in files'
              && StoredAs(w, files'[fileHash], Fetched(w, env, me, fileHash, fileSize, peers), fileHash, fileSize)
  {
    var (r, files') := Outcome(w, env, me, maxPeers, files, fileHash, fileSize, candidates);
    DownloadIsSafe(w, env, me, maxPeers, files, fileHash, fileSize, candidates);
    if r.Ok? {
      var peers := PeersTried(env, maxPeers, candidates);
      var ranges := RangesFor(fileSize, |peers|);
      AssembledLength(FetchOutcomes(w, env, me, fileHash, peers, ranges), fileSize);
    }
  }

  /**
   If every fetched payload is as long as the range in its header, a download that
   succeeds stores exactly `fileSize` bytes, and all of them have the hash.
   */
  lemma ConsistentHeadersFillFile(w: Wire, env: Environment, me: string, maxPeers: int, files: Files,
      fileHash: string, fileSize: int, candidates: seq<PeerAddress>)
    requires PeersTried(env, maxPeers, candidates) != []
    requires Consistent(Fetched(w, env, me, fileHash, fileSize, PeersTried(env, maxPeers, candidates)))
    ensures var (r, files') := Outcome(w, env, me, maxPeers, files, fileHash, fileSize, candidates);
            r.Ok? ==> fileHash in files' && |files'[fileHash]| == fileSize && w.sha256(files'[fileHash]) == fileHash
  {
    StoredLength(w, env, me, maxPeers, files, fileHash, fileSize, candidates);
    ConsistentHasNoSurplus(Fetched(w, env, me, fileHash, fileSize, PeersTried(env, maxPeers, candidates)));
  }

  // ---- which chunks are fetched, and how a download fails early ----

  /** What peer `i` answers when it is asked for `r`. */
  function AnswerTo(w: Wire, env: Environment, me: string, fileHash: string, i: nat, r: Range): HttpResult {
    env.network(i, w.encode(FileRequest(env.requestIds(i), fileHash, r.start, r.end, me)))
  }

  /** The answer parses to this chunk, and its payload has the checksum it announced. */
  predicate Carries(w: Wire, answer: HttpResult, peerId: string, c: ChunkResult) {
    && answer.Http? && answer.status == 200
    && ParseFrames(w, answer.body).Some?
    && var f := ParseFrames(w, answer.body).value;
       && w.sha256(f.data) == f.header.checksum
       && c == ChunkResult(peerId, f.header.rangeStart, f.header.rangeEnd, f.data, f.header.checksum)
  }

  lemma FetchCarries(w: Wire, peerId: string, answer: HttpResult, c: ChunkResult)
    ensures Fetch(w, peerId, answer) == Ok(c) <==> Carries(w, answer, peerId, c)
  {
    FetchExact(w, peerId, answer);
  }

  /** The chunks of a download are exactly those that the paired peers' answers carry, each with its own checksum. */
  lemma FetchedIsCarried(w: Wire, env: Environment, me: string, fileHash: string, fileSize: int,
      peers: seq<PeerAddress>, c: ChunkResult)
    requires peers != []
    ensures var ranges := RangesFor(fileSize, |peers|);
            c in Fetched(w, env, me, fileHash, fileSize, peers) <==>
            exists i :: 0 <= i < |peers| && i < |ranges|
                        && Carries(w, AnswerTo(w, env, me, fileHash, i, ranges[i]), peers[i].agentId, c)
    ensures c in Fetched(w, env, me, fileHash, fileSize, peers) ==> w.sha256(c.data) == c.checksum
  {
    var ranges := RangesFor(fileSize, |peers|);
    var results := FetchOutcomes(w, env, me, fileHash, peers, ranges);
    SuccessMembers(results);
    SortMembers(Successes(results));
    forall i | 0 <= i < |results|
      ensures results[i] == Ok(c) <==> Carries(w, AnswerTo(w, env, me, fileHash, i, ranges[i]), peers[i].agentId, c)
    {
      FetchCarries(w, peers[i].agentId, AnswerTo(w, env, me, fileHash, i, ranges[i]), c);
    }
  }

  /**
   How a download fails before anything is written, and that storage is then as it was:
   without candidates, without a peer that passed the handshake, without a chunk, at the
   first gap between the declared ranges, or at their wrong end.
   */
  lemma EarlyFailures(w: Wire, env: Environment, me: string, maxPeers: int, files: Files, fileHash: string,
      fileSize: int, candidates: seq<PeerAddress>)
    ensures var outcome := Outcome(w, env, me, maxPeers, files, fileHash, fileSize, candidates);
            var peers := PeersTried(env, maxPeers, candidates);
            if candidates == [] then outcome == (Err(NoPeersFound), files)
            else if peers == [] then outcome == (Err(NoTrustedPeers), files)
            else
              var chunks := Fetched(w, env, me, fileHash, fileSize, peers);
              if chunks == [] then outcome == (Err(AllFetchesFailed), files)
              else if Covers(chunks, fileSize) then outcome == Finish(w, files, fileHash, fileSize, chunks)
              else
                && outcome.0.Err? && outcome.1 == files
                && match outcome.0.error
                   case Gap(expected, got) => exists k :: GapAt(chunks, k, expected, got)
                   case Incomplete(got) => Covers(chunks, got) && got != fileSize
                   case _ => false
  {
    var peers := PeersTried(env, maxPeers, candidates);
    if candidates != [] && peers != [] {
      var results := FetchOutcomes(w, env, me, fileHash, peers, RangesFor(fileSize, |peers|));
      FetchedIsEmptyIff(results);
      CoverageFaultMeans(SortByStart(Successes(results)), fileSize);
      CoverageErrors(SortByStart(Successes(results)));
    }
  }

  lemma FetchedIsEmptyIff(results: seq<FetchResult>)
    ensures SortByStart(Successes(results)) == [] <==> Successes(results) == []
  {
    SortMembers(Successes(results));
    if Successes(results) != [] {
      assert Successes(results)[0] in SortByStart(Successes(results));
    }
  }

  /** If no answer carries a chunk, every fetch has failed, and nothing is written. */
  lemma NothingCarried(w: Wire, env: Environment, me: string, maxPeers: int, files: Files, fileHash: string,
      fileSize: int, candidates: seq<PeerAddress>)
    requires var peers := PeersTried(env, maxPeers, candidates);
             && candidates != [] && peers != []
             && var ranges := RangesFor(fileSize, |peers|);
                forall i :: 0 <= i < |peers| && i < |ranges| ==>
                  !Intact(w, AnswerTo(w, env, me, fileHash, i, ranges[i]))
    ensures Outcome(w, env, me, maxPeers, files, fileHash, fileSize, candidates) == (Err(AllFetchesFailed), files)
  {
    var peers := PeersTried(env, maxPeers, candidates);
    var chunks := Fetched(w, env, me, fileHash, fileSize, peers);
    if chunks != [] {
      FetchedIsCarried(w, env, me, fileHash, fileSize, peers, chunks[0]);
    }
    EarlyFailures(w, env, me, maxPeers, files, fileHash, fileSize, candidates);
  }

  // ---- bytes beyond the file ----

  /** A response whose payload is longer than the range its header names. */
  function SurplusBody(w: Wire, requestId: string, content: bytes, surplus: bytes): bytes {
    var data := content + surplus;
    Layout(w.encode(FileRequestAck(requestId, |data|)),
           w.encode(ChunkHeader(requestId, 0, |content| - 1, |data|, w.sha256(data))),
           data,
           w.encode(TransferComplete(requestId, |data|)))
  }

  lemma SurplusIsFetched(w: Wire, peerId: string, requestId: string, content: bytes, surplus: bytes)
    requires Faithful(w)
    ensures var data := content + surplus;
            Fetch(w, peerId, Http(200, SurplusBody(w, requestId, content, surplus)))
            == Ok(ChunkResult(peerId, 0, |content| - 1, data, w.sha256(data)))
  {
    var data := content + surplus;
    FrameRoundTrip(w, FileRequestAck(requestId, |data|),
                   ChunkHeader(requestId, 0, |content| - 1, |data|, w.sha256(data)), data,
                   TransferComplete(requestId, |data|));
  }

  lemma SingleChunk(c: ChunkResult, fileSize: int)
    requires c.rangeStart == 0 && c.rangeEnd + 1 == fileSize
    ensures Assemble([Ok(c)], fileSize) == Ok([c])
    ensures Concat(Datas([c])) == c.data && PeerIds([c]) == [c.peerId]
  {
    var one: seq<FetchResult> := [Ok(c)];
    assert one[..0] == [] && [c][..0] == [];
    assert Successes(one) == [c];
    assert SortByStart([c]) == [c];
    assert Coverage([c]) == Ok(fileSize);
    assert Datas([c]) == [c.data];
    assert [c.data][..0] == [];
  }

  lemma SurplusIsFinished(w: Wire, peerId: string, requestId: string, content: bytes, surplus: bytes, files: Files,
      results: seq<FetchResult>)
    requires Faithful(w) && content != []
    requires results == [Fetch(w, peerId, Http(200, SurplusBody(w, requestId, content, surplus)))]
    ensures var data := content + surplus;
            var assembled := Assemble(results, |content|);
            && assembled.Ok?
            && Finish(w, files, w.sha256(content), |content|, assembled.value)
               == (Ok(DownloadResult(w.sha256(content), |data|, [peerId], true)), files[w.sha256(content) := data])
  {
    var data := content + surplus;
    SurplusIsFetched(w, peerId, requestId, content, surplus);
    SingleChunk(ChunkResult(peerId, 0, |content| - 1, data, w.sha256(data)), |content|);
    SegmentIsHead(data, |content|);
    assert Head(data, |content|) == content;
  }

  /** The only peer answers the handshake, and every transfer request with more than the file. */
  ghost predicate AnswersWithSurplus(w: Wire, env: Environment, content: bytes, surplus: bytes) {
    && HandshakeOutcome(env, 0).Some?
    && forall raw :: env.network(0, raw) == Http(200, SurplusBody(w, env.requestIds(0), content, surplus))
  }

  lemma OneTrusted(peer: PeerAddress, outcomes: seq<Option<string>>)
    requires |outcomes| == 1 && outcomes[0].Some?
    ensures Trusted([peer], outcomes) == [peer]
  {
    assert [peer][..0] == [] && outcomes[..0] == [];
  }

  lemma OnePeerTried(env: Environment, maxPeers: int, peer: PeerAddress)
    requires maxPeers >= 1 && HandshakeOutcome(env, 0).Some?
    ensures PeersTried(env, maxPeers, [peer]) == [peer]
  {
    assert Slice([peer], 0, maxPeers) == [peer];
    OneTrusted(peer, HandshakeOutcomes(env, 1));
  }

  lemma OneRange(fileSize: int)
    requires fileSize >= 1
    ensures Split(fileSize, 1, MIN_CHUNK) == [Range(0, fileSize - 1)]
  {
  }

  /**
   Bytes beyond the file are not verified: from one peer whose payload is longer than
   the range in its header, the download succeeds, and whatever the surplus is, it is
   counted and stored with the file.
   */
  lemma SurplusIsStored(w: Wire, env: Environment, me: string, maxPeers: int, files: Files, content: bytes,
      surplus: bytes, peer: PeerAddress)
    requires Faithful(w) && content != [] && maxPeers >= 1 && AnswersWithSurplus(w, env, content, surplus)
    ensures var hash, data := w.sha256(content), content + surplus;
            Outcome(w, env, me, maxPeers, files, hash, |content|, [peer])
            == (Ok(DownloadResult(hash, |data|, [peer.agentId], true)), files[hash := data])
  {
    var hash := w.sha256(content);
    OnePeerTried(env, maxPeers, peer);
    OneRange(|content|);
    SurplusIsFinished(w, peer.agentId, env.requestIds(0), content, surplus, files,
                      FetchOutcomes(w, env, me, hash, [peer], Split(|content|, 1, MIN_CHUNK)));
  }

  /** A file of length zero cannot be downloaded: it has no ranges, so no fetch can succeed. */
  lemma EmptyFileFails(w: Wire, env: Environment, me: string, maxPeers: int, files: Files, fileHash: string,
      candidates: seq<PeerAddress>)
    ensures var (r, files') := Outcome(w, env, me, maxPeers, files, fileHash, 0, candidates);
            r.Err? && r.error in {NoPeersFound, NoTrustedPeers, AllFetchesFailed} && files' == files
  {
  }
}

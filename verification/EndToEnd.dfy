/**
 The download as a whole, from peers that run the program: what it delivers, and
 exactly when.
 */
module EndToEnd {
  import opened Bytes
  import opened Serializer
  import opened WireProtocol
  import opened P2PServer
  import opened FetchChunk
  import opened Ranges
  import opened Assembly
  import opened Downloader
  import opened DownloadSafety
  import opened Storage
  import FileServer
  import Trust

  /** A peer that runs the program: its trust state, its development switch and its storage. */
  datatype Server = Server(agentId: string, trustAll: bool, knows: Trust.View, store: FileServer.Backend)

  predicate Open(s: Server, me: string) { GateOpen(s.trustAll, s.knows.anchors, me) }

  // ---- one fetch ----

  /** The server answers every raw transfer request as its handler does. */
  ghost predicate HonestTransfers(w: Wire, env: Environment, s: Server, i: nat) {
    forall raw :: env.network(i, raw) == Transfer(w, s.trustAll, s.knows.anchors, s.store, raw)
  }

  /** The server would serve all of `r` to the downloader. */
  predicate ServesWhole(s: Server, me: string, fileHash: string, r: Range) {
    && Open(s, me)
    && fileHash in s.store.files
    && 0 <= r.start <= r.end < |s.store.files[fileHash]|
  }

  /** The bytes that server has there. */
  function Piece(s: Server, fileHash: string, r: Range): bytes
    requires fileHash in s.store.files && 0 <= r.start <= r.end < |s.store.files[fileHash]|
  {
    s.store.files[fileHash][r.start..r.end + 1]
  }

  function PieceChunk(w: Wire, s: Server, fileHash: string, peerId: string, r: Range): ChunkResult
    requires fileHash in s.store.files && 0 <= r.start <= r.end < |s.store.files[fileHash]|
  {
    ChunkResult(peerId, r.start, r.end, Piece(s, fileHash, r), w.sha256(Piece(s, fileHash, r)))
  }

  /** An honest result for `r`, which is the server's own bytes if it serves the whole range and falls short if not. */
  predicate FromServer(w: Wire, result: FetchResult, s: Server, me: string, fileHash: string, peerId: string,
      r: Range) {
    && HonestFor(result, r)
    && (Unclamped(result, r) <==> ServesWhole(s, me, fileHash, r))
    && (ServesWhole(s, me, fileHash, r) ==> result == Ok(PieceChunk(w, s, fileHash, peerId, r)))
  }

  lemma WholeChunk(w: Wire, s: Server, fileHash: string, peerId: string, r: Range)
    requires fileHash in s.store.files && 0 <= r.start <= r.end < |s.store.files[fileHash]|
    ensures HonestChunk(w, peerId, s.store.files[fileHash], r.start, r.end) == PieceChunk(w, s, fileHash, peerId, r)
  {
  }

  lemma RunningPeerAnswer(w: Wire, me: string, fileHash: string, s: Server, peerId: string, msg: Message, r: Range,
      answer: HttpResult)
    requires Faithful(w) && FileServer.Reliable(s.store) && 0 <= r.start <= r.end
    requires msg.FileRequest? && msg.fileHash == fileHash && msg.senderId == me
    requires msg.rangeStart == r.start && msg.rangeEnd == r.end
    requires answer == Transfer(w, s.trustAll, s.knows.anchors, s.store, w.encode(msg))
    ensures FromServer(w, Fetch(w, peerId, answer), s, me, fileHash, peerId, r)
  {
    HonestFetch(w, peerId, s.trustAll, s.knows.anchors, s.store, msg);
    if ServesWhole(s, me, fileHash, r) {
      WholeChunk(w, s, fileHash, peerId, r);
    }
  }

  /** A range asked of a peer that runs the program, through request, gate, clamp, frames and parser. */
  lemma RunningPeerFetch(w: Wire, env: Environment, me: string, fileHash: string, s: Server, peer: PeerAddress,
      i: nat, r: Range)
    requires Faithful(w) && FileServer.Reliable(s.store) && HonestTransfers(w, env, s, i)
    requires 0 <= r.start <= r.end
    ensures FromServer(w, FetchOutcome(w, env, me, fileHash, peer, i, r), s, me, fileHash, peer.agentId, r)
  {
    var msg := RequestFor(env, me, fileHash, i, r);
    var answer := env.network(i, w.encode(msg));
    assert answer == Transfer(w, s.trustAll, s.knows.anchors, s.store, w.encode(msg));
    RunningPeerAnswer(w, me, fileHash, s, peer.agentId, msg, r, answer);
  }

  // ---- all fetches ----

  lemma TileBounds(ranges: seq<Range>, fileSize: int, i: nat)
    requires Tiles(ranges, fileSize) && i < |ranges|
    ensures 0 <= ranges[i].start <= ranges[i].end < fileSize
  {
    TileStarts(ranges, fileSize, i);
    TileEnds(ranges, fileSize, i);
  }

  lemma {:induction false} TileStarts(ranges: seq<Range>, fileSize: int, i: nat)
    requires Tiles(ranges, fileSize) && i < |ranges|
    ensures 0 <= ranges[i].start
  {
    if i > 0 {
      TileStarts(ranges, fileSize, i - 1);
      assert ranges[i - 1].end + 1 == ranges[i].start && ranges[i - 1].start <= ranges[i - 1].end;
    }
  }

  lemma {:induction false} TileEnds(ranges: seq<Range>, fileSize: int, i: nat)
    requires Tiles(ranges, fileSize) && i < |ranges|
    ensures ranges[i].end < fileSize
    decreases |ranges| - i
  {
    if i < |ranges| - 1 {
      TileEnds(ranges, fileSize, i + 1);
      assert ranges[i].end + 1 == ranges[i + 1].start && ranges[i + 1].start <= ranges[i + 1].end;
    }
  }

  /** The servers behind the peers that are paired with a range, in order. */
  ghost predicate Running(w: Wire, env: Environment, servers: seq<Server>) {
    forall i :: 0 <= i < |servers| ==> FileServer.Reliable(servers[i].store) && HonestTransfers(w, env, servers[i], i)
  }

  predicate AllServe(servers: seq<Server>, me: string, fileHash: string, ranges: seq<Range>)
    requires |servers| == |ranges|
  {
    forall i :: 0 <= i < |ranges| ==> ServesWhole(servers[i], me, fileHash, ranges[i])
  }

  function Pieces(servers: seq<Server>, me: string, fileHash: string, ranges: seq<Range>): seq<bytes>
    requires |servers| == |ranges| && AllServe(servers, me, fileHash, ranges)
  {
    seq(|ranges|, i requires 0 <= i < |ranges| => Piece(servers[i], fileHash, ranges[i]))
  }

  ghost predicate FromServers(w: Wire, results: seq<FetchResult>, ranges: seq<Range>, servers: seq<Server>,
      peers: seq<PeerAddress>, me: string, fileHash: string) {
    && |results| == |ranges| == |servers| <= |peers|
    && forall i :: 0 <= i < |ranges| ==>
         FromServer(w, results[i], servers[i], me, fileHash, peers[i].agentId, ranges[i])
  }

  lemma RunningFetches(w: Wire, env: Environment, me: string, fileHash: string, fileSize: int, servers: seq<Server>,
      peers: seq<PeerAddress>)
    requires Faithful(w) && fileSize >= 1 && peers != [] && Running(w, env, servers)
    requires |servers| == |Split(fileSize, |peers|, MIN_CHUNK)|
    ensures var ranges := Split(fileSize, |peers|, MIN_CHUNK);
            && Tiles(ranges, fileSize)
            && FromServers(w, FetchOutcomes(w, env, me, fileHash, peers, ranges), ranges, servers, peers, me, fileHash)
  {
    var ranges := Split(fileSize, |peers|, MIN_CHUNK);
    SplitTiles(fileSize, |peers|, MIN_CHUNK);
    SplitCount(fileSize, |peers|, MIN_CHUNK);
    var results := FetchOutcomes(w, env, me, fileHash, peers, ranges);
    forall i | 0 <= i < |ranges|
      ensures FromServer(w, results[i], servers[i], me, fileHash, peers[i].agentId, ranges[i])
    {
      assert results[i] == FetchOutcome(w, env, me, fileHash, peers[i], i, ranges[i]);
      TileBounds(ranges, fileSize, i);
      RunningPeerFetch(w, env, me, fileHash, servers[i], peers[i], i, ranges[i]);
    }
  }

  // ---- putting the pieces together ----

  lemma AssembleAllOrNothing(results: seq<FetchResult>, ranges: seq<Range>, fileSize: int)
    requires AllHonest(results, ranges) && Tiles(ranges, fileSize)
    ensures Assemble(results, fileSize).Ok? <==> AllFetched(results, ranges, |ranges|)
    ensures Assemble(results, fileSize).Ok? ==> Assemble(results, fileSize).value == Successes(results)
  {
    AssembleAccepts(results, fileSize);
    AllOrNothing(results, ranges, fileSize);
    if AllFetched(results, ranges, |ranges|) {
      FirstSucceeds(results, ranges);
    }
  }

  lemma FirstSucceeds(results: seq<FetchResult>, ranges: seq<Range>)
    requires |results| == |ranges| && ranges != [] && AllFetched(results, ranges, |ranges|)
    ensures Successes(results) != []
  {
  }

  lemma {:induction false} SuccessesOfAll(results: seq<FetchResult>)
    requires forall i :: 0 <= i < |results| ==> results[i].Ok?
    ensures |Successes(results)| == |results|
    ensures forall i :: 0 <= i < |results| ==> Successes(results)[i] == results[i].value
  {
    if results != [] {
      SuccessesOfAll(results[..|results| - 1]);
    }
  }

  /** The agents of the first `n` peers. */
  function FirstIds(peers: seq<PeerAddress>, n: nat): seq<string>
    requires n <= |peers|
  {
    seq(n, i requires 0 <= i < n => peers[i].agentId)
  }

  /** The chunks are the servers' pieces, from the peers in order. */
  predicate ArePieces(chunks: Chunks, servers: seq<Server>, peers: seq<PeerAddress>, me: string, fileHash: string,
      ranges: seq<Range>)
    requires |servers| == |ranges| <= |peers| && AllServe(servers, me, fileHash, ranges)
  {
    && Datas(chunks) == Pieces(servers, me, fileHash, ranges)
    && PeerIds(chunks) == FirstIds(peers, |ranges|)
  }

  lemma ServedPieces(w: Wire, results: seq<FetchResult>, ranges: seq<Range>, servers: seq<Server>,
      peers: seq<PeerAddress>, me: string, fileHash: string)
    requires FromServers(w, results, ranges, servers, peers, me, fileHash)
    requires AllServe(servers, me, fileHash, ranges)
    ensures ArePieces(Successes(results), servers, peers, me, fileHash, ranges)
  {
    assert forall i :: 0 <= i < |ranges| ==>
      results[i] == Ok(PieceChunk(w, servers[i], fileHash, peers[i].agentId, ranges[i]));
    SuccessesOfAll(results);
  }

  /** The fetched chunks are assembled if and only if every paired peer serves the whole of its range. */
  lemma AssembledIffAllServed(w: Wire, results: seq<FetchResult>, ranges: seq<Range>, fileSize: int,
      servers: seq<Server>, peers: seq<PeerAddress>, me: string, fileHash: string)
    requires Tiles(ranges, fileSize) && FromServers(w, results, ranges, servers, peers, me, fileHash)
    ensures Assemble(results, fileSize).Ok? <==> AllServe(servers, me, fileHash, ranges)
    ensures Assemble(results, fileSize).Ok? ==>
              ArePieces(Assemble(results, fileSize).value, servers, peers, me, fileHash, ranges)
  {
    AssembleAllOrNothing(results, ranges, fileSize);
    if AllServe(servers, me, fileHash, ranges) {
      ServedPieces(w, results, ranges, servers, peers, me, fileHash);
    }
  }

  lemma {:induction false} PiecesLength(pieces: seq<bytes>, ranges: seq<Range>, fileSize: int, k: nat)
    requires Tiles(ranges, fileSize) && k <= |ranges| == |pieces|
    requires forall i :: 0 <= i < |ranges| ==> |pieces[i]| == ranges[i].end + 1 - ranges[i].start
    ensures |Concat(pieces[..k])| == Boundary(ranges, k)
  {
    if k > 0 {
      PiecesLength(pieces, ranges, fileSize, k - 1);
      BoundaryGrows(ranges, fileSize, k - 1);
      ConcatPrefix(pieces, k - 1);
    }
  }

  lemma CombinedLength(servers: seq<Server>, me: string, fileHash: string, ranges: seq<Range>, fileSize: int)
    requires |servers| == |ranges| && Tiles(ranges, fileSize) && AllServe(servers, me, fileHash, ranges)
    ensures |Concat(Pieces(servers, me, fileHash, ranges))| == fileSize
  {
    var pieces := Pieces(servers, me, fileHash, ranges);
    PiecesLength(pieces, ranges, fileSize, |ranges|);
    assert pieces[..|ranges|] == pieces;
  }

  // ---- the download ----

  lemma WholeFinish(w: Wire, files: Files, fileHash: string, chunks: Chunks, stored: bytes)
    requires Concat(Datas(chunks)) == stored
    ensures Finish(w, files, fileHash, |stored|, chunks) ==
            if w.sha256(stored) == fileHash
            then (Ok(DownloadResult(fileHash, |stored|, PeerIds(chunks), true)), files[fileHash := stored])
            else (Err(HashMismatch), files - {fileHash})
  {
    SegmentIsHead(stored, |stored|);
    assert Head(stored, |stored|) == stored;
  }

  /** What a download from servers that are paired with these ranges returns and leaves in storage. */
  predicate Delivered(w: Wire, files: Files, fileHash: string, fileSize: int, servers: seq<Server>,
      peers: seq<PeerAddress>, me: string, ranges: seq<Range>, r: Result<DownloadResult, DownloadError>, files': Files)
    requires |servers| == |ranges| <= |peers|
  {
    if !AllServe(servers, me, fileHash, ranges) then
      r.Err? && r.error != HashMismatch && files' == files
    else
      var combined := Concat(Pieces(servers, me, fileHash, ranges));
      if w.sha256(combined) == fileHash then
        && |combined| == fileSize
        && r == Ok(DownloadResult(fileHash, |combined|, FirstIds(peers, |ranges|), true))
        && files' == files[fileHash := combined]
      else
        r == Err(HashMismatch) && files' == files - {fileHash}
  }

  lemma PiecesDelivered(w: Wire, files: Files, fileHash: string, fileSize: int, servers: seq<Server>,
      peers: seq<PeerAddress>, me: string, ranges: seq<Range>, results: seq<FetchResult>)
    requires Tiles(ranges, fileSize) && FromServers(w, results, ranges, servers, peers, me, fileHash)
    ensures match Assemble(results, fileSize)
            case Err(e) => Delivered(w, files, fileHash, fileSize, servers, peers, me, ranges, Err(e), files)
            case Ok(chunks) =>
              var (r, files') := Finish(w, files, fileHash, fileSize, chunks);
              Delivered(w, files, fileHash, fileSize, servers, peers, me, ranges, r, files')
  {
    AssembledIffAllServed(w, results, ranges, fileSize, servers, peers, me, fileHash);
    AssembleErrors(results, fileSize);
    if AllServe(servers, me, fileHash, ranges) {
      var chunks := Assemble(results, fileSize).value;
      CombinedLength(servers, me, fileHash, ranges, fileSize);
      WholeFinish(w, files, fileHash, chunks, Concat(Pieces(servers, me, fileHash, ranges)));
    }
  }

  /**
   Whatever they hold and whomever they trust, as long as the peers that are paired
   with a range run the program: the download succeeds if and only if each of them
   serves the whole of its range and the pieces together have the hash. Then exactly
   the pieces are stored. If a peer falls short, nothing is written; if the hash is
   wrong, the key is absent.
   */
  lemma RunningDownload(w: Wire, env: Environment, me: string, maxPeers: int, files: Files, fileHash: string,
      fileSize: int, candidates: seq<PeerAddress>, servers: seq<Server>)
    requires Faithful(w) && fileSize >= 1 && PeersTried(env, maxPeers, candidates) != []
    requires |servers| == |Split(fileSize, |PeersTried(env, maxPeers, candidates)|, MIN_CHUNK)|
    requires Running(w, env, servers)
    ensures var peers := PeersTried(env, maxPeers, candidates);
            var ranges := Split(fileSize, |peers|, MIN_CHUNK);
            var (r, files') := Outcome(w, env, me, maxPeers, files, fileHash, fileSize, candidates);
            && |ranges| <= |peers|
            && Delivered(w, files, fileHash, fileSize, servers, peers, me, ranges, r, files')
  {
    var peers := PeersTried(env, maxPeers, candidates);
    var ranges := Split(fileSize, |peers|, MIN_CHUNK);
    RunningFetches(w, env, me, fileHash, fileSize, servers, peers);
    PiecesDelivered(w, files, fileHash, fileSize, servers, peers, me, ranges,
                    FetchOutcomes(w, env, me, fileHash, peers, ranges));
  }

  // ---- peers that hold the file ----

  /** The server trusts the downloader and holds the content under its hash. */
  predicate Holds(s: Server, me: string, fileHash: string, content: bytes) {
    Open(s, me) && fileHash in s.store.files && s.store.files[fileHash] == content
  }

  predicate AllHold(servers: seq<Server>, me: string, fileHash: string, content: bytes) {
    forall i :: 0 <= i < |servers| ==> Holds(servers[i], me, fileHash, content)
  }

  lemma {:induction false} TilesSpellContent(pieces: seq<bytes>, ranges: seq<Range>, content: bytes, k: nat)
    requires Tiles(ranges, |content|) && k <= |ranges| == |pieces|
    requires forall i :: 0 <= i < |ranges| ==>
               0 <= ranges[i].start <= ranges[i].end < |content|
               && pieces[i] == content[ranges[i].start..ranges[i].end + 1]
    ensures 0 <= Boundary(ranges, k) <= |content|
    ensures Concat(pieces[..k]) == content[..Boundary(ranges, k)]
  {
    if k > 0 {
      TilesSpellContent(pieces, ranges, content, k - 1);
      BoundaryGrows(ranges, |content|, k - 1);
      ConcatPrefix(pieces, k - 1);
    }
  }

  lemma HoldersServe(servers: seq<Server>, me: string, fileHash: string, content: bytes, ranges: seq<Range>)
    requires |servers| == |ranges| && Tiles(ranges, |content|) && AllHold(servers, me, fileHash, content)
    ensures AllServe(servers, me, fileHash, ranges)
    ensures Concat(Pieces(servers, me, fileHash, ranges)) == content
  {
    forall i | 0 <= i < |ranges|
      ensures 0 <= ranges[i].start <= ranges[i].end < |content|
      ensures ServesWhole(servers[i], me, fileHash, ranges[i])
    {
      TileBounds(ranges, |content|, i);
      assert Holds(servers[i], me, fileHash, content);
    }
    var pieces := Pieces(servers, me, fileHash, ranges);
    TilesSpellContent(pieces, ranges, content, |ranges|);
    assert pieces[..|ranges|] == pieces && content[..|content|] == content;
  }

  /** The download of `content` under its hash returned verified from the first peers, and it alone was stored. */
  predicate Downloaded(w: Wire, files: Files, content: bytes, peers: seq<PeerAddress>, used: nat,
      outcome: (Result<DownloadResult, DownloadError>, Files)) {
    && used <= |peers|
    && outcome.0 == Ok(DownloadResult(w.sha256(content), |content|, FirstIds(peers, used), true))
    && outcome.1 == files[w.sha256(content) := content]
  }

  /**
   End to end: once some candidates have passed the handshake, it is enough that
   those paired with a range run the program, trust the downloader and hold the
   non-empty file. Whatever the others are, and in whatever order handshakes and
   fetches complete, the download returns verified with every byte counted, and
   storage holds exactly the file.
   */
  lemma HonestDownload(w: Wire, env: Environment, me: string, maxPeers: int, files: Files, content: bytes,
      candidates: seq<PeerAddress>, servers: seq<Server>)
    requires Faithful(w) && content != [] && PeersTried(env, maxPeers, candidates) != []
    requires |servers| == |Split(|content|, |PeersTried(env, maxPeers, candidates)|, MIN_CHUNK)|
    requires Running(w, env, servers) && AllHold(servers, me, w.sha256(content), content)
    ensures Downloaded(w, files, content, PeersTried(env, maxPeers, candidates), |servers|,
                       Outcome(w, env, me, maxPeers, files, w.sha256(content), |content|, candidates))
  {
    var n := |PeersTried(env, maxPeers, candidates)|;
    RunningDownload(w, env, me, maxPeers, files, w.sha256(content), |content|, candidates, servers);
    SplitTiles(|content|, n, MIN_CHUNK);
    HoldersServe(servers, me, w.sha256(content), content, Split(|content|, n, MIN_CHUNK));
  }

  // ---- who passes the handshake ----

  /** The server answers a handshake with an empty chain as its handler decides, signing the nonce if it accepts. */
  predicate HonestHandshake(env: Environment, me: string, now: Trust.Time, s: Server, i: nat) {
    if HandshakeAccepted(s.knows, env.log, s.trustAll, me, [], now)
    then env.replies(i).Response? && env.replies(i).senderId == s.agentId &&
         Trust.Verify(env.log, s.agentId, env.nonces(i), env.replies(i).signature)
    else env.replies(i) == Refused(403)
  }

  /** Every candidate either cannot be reached or runs the program. */
  predicate HonestHandshakes(env: Environment, me: string, now: Trust.Time, servers: seq<Option<Server>>) {
    forall i :: 0 <= i < |servers| ==>
      match servers[i]
      case None => env.replies(i) == Unreachable
      case Some(s) => HonestHandshake(env, me, now, s, i)
  }

  predicate Reachable(s: Option<Server>, me: string) { s.Some? && Open(s.value, me) }

  /** The servers that can be reached and trust the downloader, in order. */
  function OpenServers(servers: seq<Option<Server>>, me: string): seq<Server> {
    if servers == [] then []
    else
      var n := |servers| - 1;
      OpenServers(servers[..n], me) + if Reachable(servers[n], me) then [servers[n].value] else []
  }

  /** The candidates behind them. */
  function OpenPeers(candidates: seq<PeerAddress>, servers: seq<Option<Server>>, me: string): (r: seq<PeerAddress>)
    requires |candidates| == |servers|
    ensures |r| == |OpenServers(servers, me)|
  {
    if candidates == [] then []
    else
      var n := |candidates| - 1;
      OpenPeers(candidates[..n], servers[..n], me) + if Reachable(servers[n], me) then [candidates[n]] else []
  }

  lemma {:induction false} TrustedAre(candidates: seq<PeerAddress>, servers: seq<Option<Server>>, me: string,
      outcomes: seq<Option<string>>)
    requires |candidates| == |servers| == |outcomes|
    requires forall i :: 0 <= i < |servers| ==> (outcomes[i].Some? <==> Reachable(servers[i], me))
    ensures Trusted(candidates, outcomes) == OpenPeers(candidates, servers, me)
  {
    if candidates != [] {
      var n := |candidates| - 1;
      TrustedAre(candidates[..n], servers[..n], me, outcomes[..n]);
    }
  }

  /** The handshakes keep exactly the candidates that can be reached and trust the downloader. */
  lemma HandshakesKeepOpenPeers(env: Environment, me: string, maxPeers: int, now: Trust.Time,
      servers: seq<Option<Server>>, candidates: seq<PeerAddress>)
    requires |servers| == |Slice(candidates, 0, maxPeers)| && HonestHandshakes(env, me, now, servers)
    ensures PeersTried(env, maxPeers, candidates) == OpenPeers(Slice(candidates, 0, maxPeers), servers, me)
  {
    forall i | 0 <= i < |servers|
      ensures HandshakeOutcome(env, i).Some? <==> Reachable(servers[i], me)
    {
      if servers[i].Some? {
        var s := servers[i].value;
        assert HonestHandshake(env, me, now, s, i);
        GateIsEmptyChainHandshake(s.knows, env.log, s.trustAll, me, now);
      }
    }
    TrustedAre(Slice(candidates, 0, maxPeers), servers, me, HandshakeOutcomes(env, |servers|));
  }

  lemma {:induction false} AllOpen(candidates: seq<PeerAddress>, servers: seq<Option<Server>>, me: string)
    requires |candidates| == |servers| && forall i :: 0 <= i < |servers| ==> Reachable(servers[i], me)
    ensures OpenPeers(candidates, servers, me) == candidates
  {
    if candidates != [] {
      var n := |candidates| - 1;
      AllOpen(candidates[..n], servers[..n], me);
      assert candidates == candidates[..n] + [candidates[n]];
    }
  }

  /** In particular, from candidates that all run the program, trust the downloader and hold the file. */
  lemma WillingDownload(w: Wire, env: Environment, me: string, maxPeers: int, now: Trust.Time, files: Files,
      content: bytes, candidates: seq<PeerAddress>, servers: seq<Server>)
    requires Faithful(w) && content != [] && candidates != [] && maxPeers >= 1
    requires |servers| == Min(maxPeers, |candidates|)
    requires forall i :: 0 <= i < |servers| ==> HonestHandshake(env, me, now, servers[i], i)
    requires Running(w, env, servers) && AllHold(servers, me, w.sha256(content), content)
    ensures var tried := Slice(candidates, 0, maxPeers);
            Downloaded(w, files, content, tried, |Split(|content|, |tried|, MIN_CHUNK)|,
                       Outcome(w, env, me, maxPeers, files, w.sha256(content), |content|, candidates))
  {
    var tried := Slice(candidates, 0, maxPeers);
    var some := seq(|servers|, i requires 0 <= i < |servers| => Some(servers[i]));
    assert forall i :: 0 <= i < |servers| ==> Holds(servers[i], me, w.sha256(content), content);
    HandshakesKeepOpenPeers(env, me, maxPeers, now, some, candidates);
    AllOpen(tried, some, me);
    SplitCount(|content|, |tried|, MIN_CHUNK);
    HonestDownload(w, env, me, maxPeers, files, content, candidates,
                   servers[..|Split(|content|, |tried|, MIN_CHUNK)|]);
  }

  // ---- the environment a swarm makes for itself ----

  /** The answers of the candidates: those that run decide on the handshake, sign the nonce, and serve requests. */
  function SwarmEnvironment(w: Wire, base: Environment, me: string, servers: seq<Option<Server>>): Environment {
    var open := OpenServers(servers, me);
    base.(log := base.log + (set i | 0 <= i < |servers| && Reachable(servers[i], me) ::
                   Trust.Signed(servers[i].value.agentId, base.nonces(i), "")),
          replies := (i: nat) =>
            if i >= |servers| || servers[i].None? then Unreachable
            else if Open(servers[i].value, me) then Response(servers[i].value.agentId, "")
            else Refused(403),
          network := (i: nat, raw: bytes) =>
            if i < |open| then Transfer(w, open[i].trustAll, open[i].knows.anchors, open[i].store, raw) else Broken)
  }

  lemma SwarmIsHonest(w: Wire, base: Environment, me: string, now: Trust.Time, servers: seq<Option<Server>>, n: nat)
    requires n <= |OpenServers(servers, me)|
    requires forall i :: 0 <= i < n ==> FileServer.Reliable(OpenServers(servers, me)[i].store)
    ensures HonestHandshakes(SwarmEnvironment(w, base, me, servers), me, now, servers)
    ensures Running(w, SwarmEnvironment(w, base, me, servers), OpenServers(servers, me)[..n])
  {
  }

  /** The file is kept locally or behind the HTTP file server. */
  ghost predicate Backed(s: Server) {
    s.store == FileServer.LocalBackend(s.store.files) || s.store == FileServer.RemoteBackend(s.store.files)
  }

  /**
   The same with nothing left open but the hash: over the program's own JSON frames,
   from a swarm some of whose members may be unreachable, refuse the downloader or
   lack the file, as long as those that end up paired with a range hold it.
   */
  lemma SwarmDownload(sha256: bytes -> string, base: Environment, me: string, maxPeers: int, now: Trust.Time,
      servers: seq<Option<Server>>, files: Files, content: bytes, candidates: seq<PeerAddress>)
    requires content != [] && |servers| == |Slice(candidates, 0, maxPeers)| && OpenServers(servers, me) != []
    requires var open := OpenServers(servers, me);
             forall i :: 0 <= i < |Split(|content|, |open|, MIN_CHUNK)| && i < |open| ==>
               Backed(open[i]) && Holds(open[i], me, sha256(content), content)
    ensures var w := JsonWire(sha256);
            var peers := OpenPeers(Slice(candidates, 0, maxPeers), servers, me);
            Downloaded(w, files, content, peers, |Split(|content|, |peers|, MIN_CHUNK)|,
                       Outcome(w, SwarmEnvironment(w, base, me, servers), me, maxPeers, files, sha256(content),
                               |content|, candidates))
  {
    var w, open := JsonWire(sha256), OpenServers(servers, me);
    var n := |Split(|content|, |open|, MIN_CHUNK)|;
    JsonIsFaithful(sha256);
    SplitCount(|content|, |open|, MIN_CHUNK);
    forall i | 0 <= i < n
      ensures FileServer.Reliable(open[i].store)
    {
      FileServer.BackendsReliable(open[i].store.files);
    }
    SwarmIsHonest(w, base, me, now, servers, n);
    HandshakesKeepOpenPeers(SwarmEnvironment(w, base, me, servers), me, maxPeers, now, servers, candidates);
    HonestDownload(w, SwarmEnvironment(w, base, me, servers), me, maxPeers, files, content, candidates, open[..n]);
  }
}

/**
 The downloading side: handshakes with the candidates, one range per trusted peer,
 reassembly, storage, and the final hash.
 */
module Downloader {
  import opened Bytes
  import opened Serializer
  import opened WireProtocol
  import opened P2PServer
  import opened FetchChunk
  import opened Ranges
  import opened Assembly
  import opened Schedule
  import opened Storage
  import Trust

  datatype PeerAddress = PeerAddress(agentId: string, host: string, port: int)

  datatype DownloadResult = DownloadResult(fileHash: string, totalBytes: nat, peersUsed: seq<string>, verified: bool)

  /**
   Everything outside the downloader: signatures made so far, the nonces and
   request ids it draws, what each peer answers, how reads are cut short, and the
   order in which `n` concurrent tasks complete.
   */
  datatype Environment = Environment(
    log: Trust.SignatureLog,
    nonces: nat -> bytes,
    replies: nat -> HandshakeReply,
    requestIds: nat -> string,
    network: (nat, bytes) -> HttpResult,
    offered: nat -> nat,
    handshakeOrder: nat -> seq<nat>,
    fetchOrder: nat -> seq<nat>)

  ghost predicate Concurrent(env: Environment) {
    forall n :: IsSchedule(env.handshakeOrder(n), n) && IsSchedule(env.fetchOrder(n), n)
  }

  // ---- whose answer counts ----

  /** Candidate `i` answered its handshake with a signature of our nonce that the agent it names has made. */
  predicate Answered(env: Environment, i: nat) {
    match env.replies(i)
    case Response(senderId, signature) => Trust.Signed(senderId, env.nonces(i), signature) in env.log
    case _ => false
  }

  predicate AnsweredAs(env: Environment, i: nat, agentId: string) {
    Answered(env, i) && env.replies(i).senderId == agentId
  }

  // ---- the download as a function of its outcomes ----

  /** The sender a handshake makes an anchor, if the peer answered and signed our nonce. */
  function HandshakeOutcome(env: Environment, i: nat): Option<string> {
    match env.replies(i)
    case Response(senderId, signature) =>
      if Trust.Verify(env.log, senderId, env.nonces(i), signature) then Some(senderId) else None
    case _ => None
  }

  lemma OutcomeIsAnswer(env: Environment, i: nat)
    ensures HandshakeOutcome(env, i).Some? <==> Answered(env, i)
    ensures forall a :: HandshakeOutcome(env, i) == Some(a) <==> AnsweredAs(env, i, a)
  {
  }

  function HandshakeOutcomes(env: Environment, n: nat): seq<Option<string>> {
    seq(n, i requires 0 <= i < n => HandshakeOutcome(env, i))
  }

  /** The candidates whose handshake succeeded, in their order. */
  function Trusted(candidates: seq<PeerAddress>, outcomes: seq<Option<string>>): seq<PeerAddress>
    requires |candidates| == |outcomes|
  {
    if candidates == [] then []
    else
      var n := |candidates| - 1;
      Trusted(candidates[..n], outcomes[..n]) + if outcomes[n].Some? then [candidates[n]] else []
  }

  function RequestFor(env: Environment, me: string, fileHash: string, i: nat, r: Range): Message {
    FileRequest(env.requestIds(i), fileHash, r.start, r.end, me)
  }

  function FetchOutcome(w: Wire, env: Environment, me: string, fileHash: string, peer: PeerAddress, i: nat,
      r: Range): FetchResult {
    Fetch(w, peer.agentId, env.network(i, w.encode(RequestFor(env, me, fileHash, i, r))))
  }

  /** The outcomes of the fetches, one for each peer paired with a range. */
  function FetchOutcomes(w: Wire, env: Environment, me: string, fileHash: string, peers: seq<PeerAddress>,
      ranges: seq<Range>): seq<FetchResult> {
    seq(Min(|peers|, |ranges|), i requires 0 <= i < Min(|peers|, |ranges|) =>
      FetchOutcome(w, env, me, fileHash, peers[i], i, ranges[i]))
  }

  function Assemble(results: seq<FetchResult>, fileSize: int): Result<Chunks, DownloadError> {
    var chunks := Successes(results);
    if chunks == [] then Err(AllFetchesFailed)
    else
      match CoverageFault(SortByStart(chunks), fileSize)
      case Some(e) => Err(e)
      case None => Ok(SortByStart(chunks))
  }

  function PeerIds(chunks: Chunks): seq<string> {
    seq(|chunks|, i requires 0 <= i < |chunks| => chunks[i].peerId)
  }

  /** Storing the reassembled bytes, and keeping them only if their first `fileSize` bytes have the right hash. */
  function Finish(w: Wire, files: Files, fileHash: string, fileSize: int, chunks: Chunks): (Result<DownloadResult,
      DownloadError>, Files) {
    var stored := Concat(Datas(chunks));
    if w.sha256(Segment(stored, 0, fileSize - 1)) == fileHash
    then (Ok(DownloadResult(fileHash, |stored|, PeerIds(chunks), true)), files[fileHash := stored])
    else (Err(HashMismatch), files - {fileHash})
  }

  function FromPeers(w: Wire, env: Environment, me: string, files: Files, fileHash: string, fileSize: int,
      peers: seq<PeerAddress>)
      : (Result<DownloadResult, DownloadError>, Files)
  {
    if peers == [] then (Err(NoTrustedPeers), files)
    else
      var ranges := if fileSize == 0 then [] else Split(fileSize, |peers|, MIN_CHUNK);
      match Assemble(FetchOutcomes(w, env, me, fileHash, peers, ranges), fileSize)
      case Err(e) => (Err(e), files)
      case Ok(chunks) => Finish(w, files, fileHash, fileSize, chunks)
  }

  /** The peers a download tries: at most `maxPeers` of the tracker's list, those that pass the handshake. */
  function PeersTried(env: Environment, maxPeers: int, candidates: seq<PeerAddress>): seq<PeerAddress> {
    var tried := Slice(candidates, 0, maxPeers);
    Trusted(tried, HandshakeOutcomes(env, |tried|))
  }

  /** The result of a download and the files it leaves, for every answer the peers may give. */
  function Outcome(w: Wire, env: Environment, me: string, maxPeers: int, files: Files, fileHash: string,
      fileSize: int, candidates: seq<PeerAddress>)
      : (Result<DownloadResult, DownloadError>, Files)
  {
    if candidates == [] then (Err(NoPeersFound), files)
    else FromPeers(w, env, me, files, fileHash, fileSize, PeersTried(env, maxPeers, candidates))
  }

  // ---- the downloader ----

  class Downloader {
    const agentId: string
    const trustEngine: Trust.TrustEngine
    const storage: LocalStorage
    const maxPeers: int

    constructor (agentId: string, trustEngine: Trust.TrustEngine, storage: LocalStorage, maxPeers: int)
      ensures this.agentId == agentId && this.trustEngine == trustEngine
      ensures this.storage == storage && this.maxPeers == maxPeers
    {
      this.agentId := agentId;
      this.trustEngine := trustEngine;
      this.storage := storage;
      this.maxPeers := maxPeers;
    }

    /**
     A download, its concurrent tasks completing in the order the environment
     picks. Neither the result nor the files nor the anchors depend on that order.
     */
    method Download(w: Wire, env: Environment, fileHash: string, fileSize: int, candidates: seq<PeerAddress>)
      returns (r: Result<DownloadResult, DownloadError>)
      requires Concurrent(env)
      modifies trustEngine, storage
      ensures (r, storage.files)
              == Outcome(w, env, agentId, maxPeers, old(storage.files), fileHash, fileSize, candidates)
      ensures trustEngine.Knows() == old(trustEngine.Knows()).(anchors :=
                Joined(old(trustEngine.trustAnchors),
                       if candidates == [] then [] else HandshakeOutcomes(env, |Slice(candidates, 0, maxPeers)|)))
      ensures forall a :: a in trustEngine.trustAnchors <==>
                || a in old(trustEngine.trustAnchors)
                || exists i :: 0 <= i < |Slice(candidates, 0, maxPeers)| && AnsweredAs(env, i, a)
    {
      GainedAnchors(env, trustEngine.trustAnchors, |Slice(candidates, 0, maxPeers)|);
      if candidates == [] {
        return Err(NoPeersFound);
      }
      var tried := Slice(candidates, 0, maxPeers);
      var trusted := HandshakeAll(env, tried);
      if trusted == [] {
        return Err(NoTrustedPeers);
      }
      var ranges := SplitRanges(fileSize, |trusted|, MIN_CHUNK);
      var results := FetchAll(w, env, fileHash, trusted, ranges);
      var assembled := AssembleChunks(results, fileSize);
      if assembled.Err? {
        return Err(assembled.error);
      }
      r := StoreAndVerify(w, env, fileHash, fileSize, assembled.value);
    }

    /** One handshake; success makes the answering sender a trust anchor. */
    method HandshakePeer(env: Environment, i: nat) returns (accepted: bool)
      modifies trustEngine
      ensures accepted <==>
                && env.replies(i).Response?
                && Trust.Signed(env.replies(i).senderId, env.nonces(i), env.replies(i).signature) in env.log
      ensures trustEngine.Knows() == old(trustEngine.Knows()).(anchors :=
                old(trustEngine.trustAnchors) + if accepted then {env.replies(i).senderId} else {})
    {
      var reply := env.replies(i);
      if !reply.Response? {
        return false;
      }
      if !Trust.Verify(env.log, reply.senderId, env.nonces(i), reply.signature) {
        return false;
      }
      trustEngine.trustAnchors := trustEngine.trustAnchors + {reply.senderId};
      accepted := true;
    }

    /** All handshakes at once, then the candidates that passed, in their order. */
    method HandshakeAll(env: Environment, candidates: seq<PeerAddress>) returns (trusted: seq<PeerAddress>)
      requires Concurrent(env)
      modifies trustEngine
      ensures trusted == Trusted(candidates, HandshakeOutcomes(env, |candidates|))
      ensures trustEngine.Knows() == old(trustEngine.Knows()).(anchors :=
                Joined(old(trustEngine.trustAnchors), HandshakeOutcomes(env, |candidates|)))
    {
      var n := |candidates|;
      var order := env.handshakeOrder(n);
      ghost var outcomes := HandshakeOutcomes(env, n);
      ghost var verdicts := Verdicts(outcomes);
      var results: seq<Option<bool>> := seq(n, _ => None);
      for k := 0 to |order|
        invariant results == Settle(verdicts, order[..k])
        invariant trustEngine.Knows() == old(trustEngine.Knows()).(anchors :=
                    Join(old(trustEngine.trustAnchors), outcomes, order[..k]))
      {
        assert order[..k + 1][..k] == order[..k];
        var accepted := HandshakePeer(env, order[k]);
        OutcomeIsAnswer(env, order[k]);
        results := results[order[k] := Some(accepted)];
      }
      assert order[..|order|] == order;
      ScheduleIndependent(verdicts, old(trustEngine.trustAnchors), outcomes, order);
      trusted := SelectTrusted(candidates, results, outcomes);
    }

    /** All fetches at once; the results come back in the order of the ranges. */
    method FetchAll(w: Wire, env: Environment, fileHash: string, peers: seq<PeerAddress>, ranges: seq<Range>)
      returns (results: seq<FetchResult>)
      requires Concurrent(env)
      ensures results == FetchOutcomes(w, env, agentId, fileHash, peers, ranges)
      ensures |results| == if |peers| <= |ranges| then |peers| else |ranges|
      ensures forall i :: 0 <= i < |results| ==>
                var request := FileRequest(env.requestIds(i), fileHash, ranges[i].start, ranges[i].end, agentId);
                results[i] == Fetch(w, peers[i].agentId, env.network(i, w.encode(request)))
    {
      var n := Min(|peers|, |ranges|);
      var order := env.fetchOrder(n);
      ghost var outcomes := FetchOutcomes(w, env, agentId, fileHash, peers, ranges);
      var slots: seq<Option<FetchResult>> := seq(n, _ => None);
      for k := 0 to |order|
        invariant slots == Settle(outcomes, order[..k])
      {
        assert order[..k + 1][..k] == order[..k];
        var i := order[k];
        var result := FetchOutcome(w, env, agentId, fileHash, peers[i], i, ranges[i]);
        slots := slots[i := Some(result)];
      }
      assert order[..|order|] == order;
      ScheduleIndependent(outcomes, {}, seq(n, _ => None), order);
      results := seq(n, i requires 0 <= i < n => slots[i].value);
    }

    /** Writes the chunks in order, reads the file back, and deletes it again if its hash is wrong. */
    method StoreAndVerify(w: Wire, env: Environment, fileHash: string, fileSize: int, chunks: Chunks)
      returns (r: Result<DownloadResult, DownloadError>)
      modifies storage
      ensures (r, storage.files) == Finish(w, old(storage.files), fileHash, fileSize, chunks)
    {
      var totalBytes := TotalBytes(chunks);
      var written := storage.WriteStream(fileHash, ByteStream(Datas(chunks), Completed));
      var stream := storage.ReadRange(fileHash, 0, fileSize - 1, env.offered);
      var hashed, _, _ := Collect(stream.value);
      if w.sha256(hashed) != fileHash {
        storage.Delete(fileHash);
        assert storage.files == old(storage.files) - {fileHash};
        return Err(HashMismatch);
      }
      r := Ok(DownloadResult(fileHash, totalBytes, PeerIds(chunks), true));
    }
  }

  lemma GainedAnchors(env: Environment, initial: set<string>, n: nat)
    ensures forall a :: a in Joined(initial, HandshakeOutcomes(env, n)) <==>
              a in initial || exists i :: 0 <= i < n && AnsweredAs(env, i, a)
  {
    var outcomes := HandshakeOutcomes(env, n);
    forall a
      ensures a in Joined(initial, outcomes) <==> a in initial || exists i :: 0 <= i < n && AnsweredAs(env, i, a)
    {
      forall i | 0 <= i < n
        ensures outcomes[i] == Some(a) <==> AnsweredAs(env, i, a)
      {
        OutcomeIsAnswer(env, i);
      }
    }
  }

  /** `kept` lists, in order, exactly the positions that `keeps` marks, and `peers` are the candidates there. */
  ghost predicate KeptAt(kept: seq<nat>, peers: seq<PeerAddress>, candidates: seq<PeerAddress>, keeps: seq<bool>) {
    && (forall j, k :: 0 <= j < k < |kept| ==> kept[j] < kept[k])
    && (forall i: nat :: i in kept <==> i < |keeps| && keeps[i])
    && |peers| == |kept|
    && forall j :: 0 <= j < |kept| ==> kept[j] < |candidates| && peers[j] == candidates[kept[j]]
  }

  lemma KeptFront(kept: seq<nat>, peers: seq<PeerAddress>, candidates: seq<PeerAddress>, keeps: seq<bool>)
    requires |candidates| == |keeps| > 0
    requires var n := |keeps| - 1; KeptAt(kept, peers, candidates[..n], keeps[..n])
    ensures var n := |keeps| - 1;
            if keeps[n] then KeptAt(kept + [n], peers + [candidates[n]], candidates, keeps)
            else KeptAt(kept, peers, candidates, keeps)
  {
    var n := |keeps| - 1;
    assert forall j :: 0 <= j < |kept| ==> kept[j] in kept;
    assert forall i: nat :: i in kept ==> i < n;
  }

  lemma {:induction false} TrustedPositions(candidates: seq<PeerAddress>, outcomes: seq<Option<string>>)
      returns (kept: seq<nat>)
    requires |candidates| == |outcomes|
    ensures KeptAt(kept, Trusted(candidates, outcomes), candidates, Verdicts(outcomes))
  {
    if candidates == [] {
      kept := [];
    } else {
      var n := |candidates| - 1;
      kept := TrustedPositions(candidates[..n], outcomes[..n]);
      assert Verdicts(outcomes)[..n] == Verdicts(outcomes[..n]);
      KeptFront(kept, Trusted(candidates[..n], outcomes[..n]), candidates, Verdicts(outcomes));
      if outcomes[n].Some? {
        kept := kept + [n];
      }
    }
  }

  /** The peers tried are, in order, the candidates among the first `maxPeers` that answered, and no others. */
  lemma PeersTriedAnswered(env: Environment, maxPeers: int, candidates: seq<PeerAddress>) returns (kept: seq<nat>)
    ensures var tried, peers := Slice(candidates, 0, maxPeers), PeersTried(env, maxPeers, candidates);
            && (forall j, k :: 0 <= j < k < |kept| ==> kept[j] < kept[k])
            && (forall i: nat :: i in kept <==> i < |tried| && Answered(env, i))
            && |peers| == |kept|
            && forall j :: 0 <= j < |kept| ==> kept[j] < |tried| && peers[j] == tried[kept[j]]
  {
    var tried := Slice(candidates, 0, maxPeers);
    var outcomes := HandshakeOutcomes(env, |tried|);
    kept := TrustedPositions(tried, outcomes);
    forall i: nat | i < |tried|
      ensures Verdicts(outcomes)[i] <==> Answered(env, i)
    {
      OutcomeIsAnswer(env, i);
    }
  }

  function Verdicts(outcomes: seq<Option<string>>): seq<bool> {
    seq(|outcomes|, i requires 0 <= i < |outcomes| => outcomes[i].Some?)
  }

  method SelectTrusted(candidates: seq<PeerAddress>, results: seq<Option<bool>>, ghost outcomes: seq<Option<string>>)
    returns (trusted: seq<PeerAddress>)
    requires |candidates| == |outcomes| && results == Gathered(Verdicts(outcomes))
    ensures trusted == Trusted(candidates, outcomes)
  {
    trusted := [];
    for i := 0 to |candidates|
      invariant trusted == Trusted(candidates[..i], outcomes[..i])
    {
      assert candidates[..i + 1][..i] == candidates[..i] && outcomes[..i + 1][..i] == outcomes[..i];
      if results[i] == Some(true) {
        trusted := trusted + [candidates[i]];
      }
    }
    assert candidates[..|candidates|] == candidates && outcomes[..|outcomes|] == outcomes;
  }

  /** The filter, the sort and the coverage check between the fetches and the write. */
  method AssembleChunks(results: seq<FetchResult>, fileSize: int) returns (r: Result<Chunks, DownloadError>)
    ensures r == Assemble(results, fileSize)
    ensures r.Ok? ==> Covers(r.value, fileSize)
  {
    var chunks := CollectChunks(results);
    if chunks == [] {
      return Err(AllFetchesFailed);
    }
    chunks := SortByStart(chunks);
    var fault := CheckCoverage(chunks, fileSize);
    r := if fault.Some? then Err(fault.value) else Ok(chunks);
  }

  method TotalBytes(chunks: Chunks) returns (total: nat)
    ensures total == |Concat(Datas(chunks))|
  {
    total := 0;
    for i := 0 to |chunks|
      invariant total == |Concat(Datas(chunks)[..i])|
    {
      ConcatPrefix(Datas(chunks), i);
      total := total + |chunks[i].data|;
    }
    assert Datas(chunks)[..|chunks|] == Datas(chunks);
  }
}

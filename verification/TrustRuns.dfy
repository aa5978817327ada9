/**
 Whole runs of a network of agents that share one signature log: agents issue
 vouches and revocations, answer handshakes, apply revocations that arrive from
 anywhere, and take on the peers that answered their own handshakes.
 */
module TrustRuns {
  import opened Bytes
  import opened Decimal
  import opened Trust
  import opened SigningBytes
  import opened P2PServer
  import opened Downloader
  import Utf8

  /** What each agent knows, which of them run with the development switch on, and all signatures made so far. */
  datatype World = World(engines: map<string, View>, trustAll: set<string>, log: SignatureLog)

  datatype Step =
    | IssueVouch(agent: string, subject: string, at: Time, ttl: Time, signature: string)
    | IssueRevoke(agent: string, subject: string, at: Time, signature: string)
    | AnswerHandshake(agent: string, request: HandshakeRequest, at: Time, signature: string)
    | ApplyRevoke(agent: string, revoke: Revoke)
    | CompleteHandshake(agent: string, peer: string, nonce: string, signature: string)

  /**
   The checks the program makes before a step takes effect. A handshake is
   completed over a nonce that the agent itself drew, in base64.
   */
  predicate Enabled(w: World, step: Step) {
    && step.agent in w.engines
    && match step
       case AnswerHandshake(agent, request, at, _) =>
         HandshakeAccepted(w.engines[agent], w.log, agent in w.trustAll, request.senderId, request.chain, at)
       case ApplyRevoke(_, revoke) => RevokeValid(w.log, revoke)
       case CompleteHandshake(_, peer, nonce, signature) =>
         IsBase64(nonce) && Verify(w.log, peer, Utf8.Encode(nonce), signature)
       case _ => true
  }

  function AnchorsOf(w: World, agent: string): set<string> {
    if agent in w.engines then w.engines[agent].anchors else {}
  }

  function RevocationsOf(w: World, agent: string): set<(string, string)> {
    if agent in w.engines then w.engines[agent].revocations else {}
  }

  function Logged(w: World, agent: string, data: bytes, signature: string): World {
    w.(log := w.log + {Signed(agent, data, signature)})
  }

  function Next(w: World, step: Step): World {
    if !Enabled(w, step) then w
    else
      var knows := w.engines[step.agent];
      match step
      case IssueVouch(agent, subject, at, ttl, signature) =>
        Logged(w, agent, VouchSigningBytes(agent, subject, at, at + ttl), signature)
      case IssueRevoke(agent, subject, at, signature) =>
        Logged(w, agent, RevokeSigningBytes(agent, subject, at), signature)
          .(engines := w.engines[agent := WithRevocation(knows, agent, subject)])
      case AnswerHandshake(agent, request, _, signature) =>
        Logged(w, agent, Utf8.Encode(request.nonce), signature)
      case ApplyRevoke(agent, revoke) =>
        w.(engines := w.engines[agent := WithRevocation(knows, revoke.issuerId, revoke.subjectId)])
      case CompleteHandshake(agent, peer, _, _) =>
        w.(engines := w.engines[agent := WithAnchor(knows, peer)])
  }

  function Run(w: World, steps: seq<Step>): World {
    if steps == [] then w else Next(Run(w, steps[..|steps| - 1]), steps[|steps| - 1])
  }

  /** Step `k` of the run passes its checks and takes effect. */
  predicate Fires(w: World, steps: seq<Step>, k: nat)
    requires k < |steps|
  {
    Enabled(Run(w, steps[..k]), steps[k])
  }

  lemma RunOneMore(w: World, steps: seq<Step>, n: nat)
    requires n < |steps|
    ensures Run(w, steps[..n + 1]) == Next(Run(w, steps[..n]), steps[n])
  {
    assert steps[..n + 1][..n] == steps[..n];
  }

  lemma FiresInPrefix(w: World, steps: seq<Step>, n: nat, k: nat)
    requires k < n <= |steps|
    ensures steps[..n][k] == steps[k] && (Fires(w, steps[..n], k) <==> Fires(w, steps, k))
  {
    assert steps[..n][..k] == steps[..k];
  }

  // ---- what only grows ----

  predicate Grown(v: World, w: World) {
    && v.engines.Keys == w.engines.Keys
    && v.trustAll == w.trustAll
    && v.log <= w.log
    && forall a :: a in v.engines ==>
         && v.engines[a].anchors <= w.engines[a].anchors
         && v.engines[a].revocations <= w.engines[a].revocations
         && v.engines[a].maxDepth == w.engines[a].maxDepth
  }

  lemma NextGrows(w: World, step: Step)
    ensures Grown(w, Next(w, step))
  {
  }

  lemma GrownTransitive(u: World, v: World, w: World)
    requires Grown(u, v) && Grown(v, w)
    ensures Grown(u, w)
  {
  }

  lemma {:induction false} GrownBetween(w: World, steps: seq<Step>, k: nat, n: nat)
    requires k <= n <= |steps|
    ensures Grown(Run(w, steps[..k]), Run(w, steps[..n]))
  {
    if k < n {
      GrownBetween(w, steps, k, n - 1);
      RunOneMore(w, steps, n - 1);
      var before := Run(w, steps[..n - 1]);
      NextGrows(before, steps[n - 1]);
      GrownTransitive(Run(w, steps[..k]), before, Next(before, steps[n - 1]));
    }
  }

  /** Along every run, anchors, revocations and the signature log only grow, and depth limits stay put. */
  lemma RunsGrow(w: World, steps: seq<Step>)
    ensures Grown(w, Run(w, steps))
  {
    GrownBetween(w, steps, 0, |steps|);
    assert steps[..0] == [] && steps[..|steps|] == steps;
  }

  /** Every agent trusts itself outright, as it does from its construction on. */
  predicate OwnIdsAreAnchors(w: World) {
    forall a :: a in w.engines ==> a in w.engines[a].anchors
  }

  lemma OwnIdsStayAnchors(w: World, steps: seq<Step>)
    requires OwnIdsAreAnchors(w)
    ensures OwnIdsAreAnchors(Run(w, steps))
  {
    RunsGrow(w, steps);
  }

  /**
   Once an agent holds a revocation, no chain that uses the edge is accepted by it
   at any later point of any run, whatever vouches were issued since.
   */
  lemma RevokedForever(w: World, steps: seq<Step>, agent: string, subject: string, chain: seq<Vouch>, now: Time, k: nat)
    requires agent in w.engines && k < |chain|
    requires (chain[k].issuerId, chain[k].subjectId) in w.engines[agent].revocations
    ensures agent in Run(w, steps).engines
    ensures var later := Run(w, steps);
            Accepted(later.engines[agent], later.log, subject, chain, now) <==> subject in later.engines[agent].anchors
  {
    RunsGrow(w, steps);
    var later := Run(w, steps);
    assert !Usable(later.engines[agent], later.log, chain[k], now);
  }

  // ---- where signatures come from ----

  /** `step` is the signing operation that puts `entry` in the log. */
  predicate Produces(step: Step, entry: Signed) {
    match step
    case IssueVouch(agent, subject, at, ttl, signature) =>
      entry == Signed(agent, VouchSigningBytes(agent, subject, at, at + ttl), signature)
    case IssueRevoke(agent, subject, at, signature) =>
      entry == Signed(agent, RevokeSigningBytes(agent, subject, at), signature)
    case AnswerHandshake(agent, request, _, signature) =>
      entry == Signed(agent, Utf8.Encode(request.nonce), signature)
    case _ => false
  }

  lemma NextLog(w: World, step: Step, entry: Signed)
    ensures entry in Next(w, step).log <==> entry in w.log || (Enabled(w, step) && Produces(step, entry))
  {
  }

  lemma {:induction false} EntryOrigin(w: World, steps: seq<Step>, n: nat, entry: Signed) returns (k: nat)
    requires n <= |steps| && entry in Run(w, steps[..n]).log && !(entry in w.log)
    ensures k < n && Fires(w, steps, k) && Produces(steps[k], entry)
  {
    k := n - 1;
    RunOneMore(w, steps, k);
    NextLog(Run(w, steps[..k]), steps[k], entry);
    if entry in Run(w, steps[..k]).log {
      k := EntryOrigin(w, steps, k, entry);
    }
  }

  lemma EntryStays(w: World, steps: seq<Step>, n: nat, entry: Signed, k: nat)
    requires k < n <= |steps| && Fires(w, steps, k) && Produces(steps[k], entry)
    ensures entry in Run(w, steps[..n]).log
  {
    RunOneMore(w, steps, k);
    NextLog(Run(w, steps[..k]), steps[k], entry);
    GrownBetween(w, steps, k + 1, n);
  }

  /** Exactly what the log holds after the first `n` steps. */
  lemma LogExact(w: World, steps: seq<Step>, n: nat, entry: Signed)
    requires n <= |steps|
    ensures entry in Run(w, steps[..n]).log <==>
            || entry in w.log
            || exists k :: 0 <= k < n && Fires(w, steps, k) && Produces(steps[k], entry)
  {
    if entry in Run(w, steps[..n]).log && !(entry in w.log) {
      var k := EntryOrigin(w, steps, n, entry);
    }
    forall k | 0 <= k < n && Fires(w, steps, k) && Produces(steps[k], entry)
      ensures entry in Run(w, steps[..n]).log
    {
      EntryStays(w, steps, n, entry, k);
    }
    GrownBetween(w, steps, 0, n);
  }

  /** `step` issued exactly the vouch `e`: same issuer, subject, times and signature. */
  predicate Issued(step: Step, e: Vouch) {
    && step.IssueVouch?
    && step.agent == e.issuerId && step.subject == e.subjectId
    && step.at == e.issuedAt && step.at + step.ttl == e.expiresAt
    && step.signature == e.signature
  }

  /** `step` answers a handshake over this nonce with this signature. */
  predicate SignsNonce(step: Step, agent: string, nonce: string, signature: string) {
    step.AnswerHandshake? && step.agent == agent && step.request.nonce == nonce && step.signature == signature
  }

  /** `step` issued the vouch, or signed its text as a nonce or as the revocation of `subject|time`. */
  predicate SignsEdge(step: Step, e: Vouch) {
    || Issued(step, e)
    || SignsNonce(step, e.issuerId, VouchText(e.issuerId, e.subjectId, e.issuedAt, e.expiresAt), e.signature)
    || step == IssueRevoke(e.issuerId, e.subjectId + "|" + PrintInt(e.issuedAt), e.expiresAt, e.signature)
  }

  /** `step` issued the revocation, or signed its text as a nonce or as a vouch. */
  predicate SignsRevoke(step: Step, r: Revoke) {
    || step == IssueRevoke(r.issuerId, r.subjectId, r.revokedAt, r.signature)
    || SignsNonce(step, r.issuerId, RevokeText(r.issuerId, r.subjectId, r.revokedAt), r.signature)
    || (&& step.IssueVouch? && step.agent == r.issuerId && step.signature == r.signature
        && r.subjectId == step.subject + "|" + PrintInt(step.at) && step.at + step.ttl == r.revokedAt)
  }

  function EdgeEntry(e: Vouch): Signed {
    Signed(e.issuerId, VouchSigningBytes(e.issuerId, e.subjectId, e.issuedAt, e.expiresAt), e.signature)
  }

  function RevokeEntry(r: Revoke): Signed {
    Signed(r.issuerId, RevokeSigningBytes(r.issuerId, r.subjectId, r.revokedAt), r.signature)
  }

  lemma ProducerOfEdge(step: Step, e: Vouch)
    ensures Produces(step, EdgeEntry(e)) <==> SignsEdge(step, e)
  {
    match step {
      case IssueVouch(agent, subject, at, ttl, _) =>
        if Produces(step, EdgeEntry(e)) {
          VouchBytesInjective(agent, subject, at, at + ttl, e.issuerId, e.subjectId, e.issuedAt, e.expiresAt);
        }
      case IssueRevoke(agent, subject, at, _) =>
        if agent == e.issuerId {
          VouchRevokeCollision(agent, e.subjectId, e.issuedAt, e.expiresAt, agent, subject, at);
        }
      case AnswerHandshake(_, request, _, _) =>
        NonceCollision(request.nonce, e.issuerId, e.subjectId, e.issuedAt, e.expiresAt);
      case _ =>
    }
  }

  lemma ProducerOfRevoke(step: Step, r: Revoke)
    ensures Produces(step, RevokeEntry(r)) <==> SignsRevoke(step, r)
  {
    match step {
      case IssueVouch(agent, subject, at, ttl, _) =>
        if agent == r.issuerId {
          VouchRevokeCollision(agent, subject, at, at + ttl, agent, r.subjectId, r.revokedAt);
        }
      case IssueRevoke(agent, subject, at, _) =>
        if Produces(step, RevokeEntry(r)) {
          RevokeBytesInjective(agent, subject, at, r.issuerId, r.subjectId, r.revokedAt);
        }
      case AnswerHandshake(_, request, _, _) =>
        NonceCollision(request.nonce, r.issuerId, r.subjectId, r.revokedAt, 0);
      case _ =>
    }
  }

  /**
   Exactly when a vouch verifies after a run, whatever was signed: it did before,
   or a step of its issuer issued it, signed its text as the nonce of a handshake it
   accepted, or signed it as the revocation of the subject `subject|time`.
   */
  lemma EdgeVerifiesIff(w: World, steps: seq<Step>, e: Vouch)
    ensures SignatureValid(Run(w, steps).log, e) <==>
            || SignatureValid(w.log, e)
            || exists k :: 0 <= k < |steps| && Fires(w, steps, k) && SignsEdge(steps[k], e)
  {
    LogExact(w, steps, |steps|, EdgeEntry(e));
    assert steps[..|steps|] == steps;
    forall k | 0 <= k < |steps|
      ensures Produces(steps[k], EdgeEntry(e)) <==> SignsEdge(steps[k], e)
    {
      ProducerOfEdge(steps[k], e);
    }
  }

  /** Exactly when a revocation verifies after a run. */
  lemma RevokeVerifiesIff(w: World, steps: seq<Step>, r: Revoke)
    ensures RevokeValid(Run(w, steps).log, r) <==>
            || RevokeValid(w.log, r)
            || exists k :: 0 <= k < |steps| && Fires(w, steps, k) && SignsRevoke(steps[k], r)
  {
    LogExact(w, steps, |steps|, RevokeEntry(r));
    assert steps[..|steps|] == steps;
    forall k | 0 <= k < |steps|
      ensures Produces(steps[k], RevokeEntry(r)) <==> SignsRevoke(steps[k], r)
    {
      ProducerOfRevoke(steps[k], r);
    }
  }

  // ---- where what an agent knows comes from ----

  predicate Completes(step: Step, agent: string, peer: string) {
    step.CompleteHandshake? && step.agent == agent && step.peer == peer
  }

  lemma NextAnchors(w: World, step: Step, agent: string, peer: string)
    ensures peer in AnchorsOf(Next(w, step), agent) <==>
            peer in AnchorsOf(w, agent) || (Enabled(w, step) && Completes(step, agent, peer))
  {
  }

  lemma {:induction false} AnchorOrigin(w: World, steps: seq<Step>, n: nat, agent: string, peer: string)
      returns (k: nat)
    requires n <= |steps| && peer in AnchorsOf(Run(w, steps[..n]), agent) && !(peer in AnchorsOf(w, agent))
    ensures k < n && Fires(w, steps, k) && Completes(steps[k], agent, peer)
  {
    k := n - 1;
    RunOneMore(w, steps, k);
    NextAnchors(Run(w, steps[..k]), steps[k], agent, peer);
    if peer in AnchorsOf(Run(w, steps[..k]), agent) {
      k := AnchorOrigin(w, steps, k, agent, peer);
    }
  }

  lemma AnchorStays(w: World, steps: seq<Step>, n: nat, agent: string, peer: string, k: nat)
    requires k < n <= |steps| && Fires(w, steps, k) && Completes(steps[k], agent, peer)
    ensures peer in AnchorsOf(Run(w, steps[..n]), agent)
  {
    RunOneMore(w, steps, k);
    NextAnchors(Run(w, steps[..k]), steps[k], agent, peer);
    GrownBetween(w, steps, k + 1, n);
  }

  /** Exactly which anchors an agent has after `n` steps: the first ones, and peers it completed a handshake with. */
  lemma AnchorsHaveOrigin(w: World, steps: seq<Step>, n: nat, agent: string, peer: string)
    requires n <= |steps|
    ensures peer in AnchorsOf(Run(w, steps[..n]), agent) <==>
            || peer in AnchorsOf(w, agent)
            || exists k :: 0 <= k < n && Fires(w, steps, k) && Completes(steps[k], agent, peer)
  {
    if peer in AnchorsOf(Run(w, steps[..n]), agent) && !(peer in AnchorsOf(w, agent)) {
      var k := AnchorOrigin(w, steps, n, agent, peer);
    }
    forall k | 0 <= k < n && Fires(w, steps, k) && Completes(steps[k], agent, peer)
      ensures peer in AnchorsOf(Run(w, steps[..n]), agent)
    {
      AnchorStays(w, steps, n, agent, peer, k);
    }
    GrownBetween(w, steps, 0, n);
  }

  lemma ProducerOfNonce(step: Step, agent: string, nonce: string, signature: string)
    requires BarFree(nonce)
    ensures Produces(step, Signed(agent, Utf8.Encode(nonce), signature)) <==> SignsNonce(step, agent, nonce, signature)
  {
    match step {
      case IssueVouch(a, subject, at, ttl, _) => NonceIsNeither(nonce, a, subject, at, at + ttl);
      case IssueRevoke(a, subject, at, _) => NonceIsNeither(nonce, a, subject, at, 0);
      case AnswerHandshake(_, request, _, _) =>
        if Utf8.Encode(request.nonce) == Utf8.Encode(nonce) {
          Utf8.EncodeInjective(request.nonce, nonce);
        }
      case _ =>
    }
  }

  /**
   Whatever else was signed, an anchor that an agent gained in a run that starts with
   an empty log answered a handshake over the agent's own nonce earlier in the run,
   with the signature that the agent then verified.
   */
  lemma AnchorsWereAnswered(w: World, steps: seq<Step>, agent: string, peer: string) returns (j: nat, k: nat)
    requires w.log == {} && peer in AnchorsOf(Run(w, steps), agent) - AnchorsOf(w, agent)
    ensures j < k < |steps| && Fires(w, steps, j) && Fires(w, steps, k)
    ensures Completes(steps[k], agent, peer) && SignsNonce(steps[j], peer, steps[k].nonce, steps[k].signature)
  {
    AnchorsHaveOrigin(w, steps, |steps|, agent, peer);
    assert steps[..|steps|] == steps;
    k :| 0 <= k < |steps| && Fires(w, steps, k) && Completes(steps[k], agent, peer);
    var nonce, signature := steps[k].nonce, steps[k].signature;
    var entry := Signed(peer, Utf8.Encode(nonce), signature);
    LogExact(w, steps, k, entry);
    j :| 0 <= j < k && Fires(w, steps, j) && Produces(steps[j], entry);
    Base64IsBarFree(nonce);
    ProducerOfNonce(steps[j], peer, nonce, signature);
  }

  /** `step` makes the agent record that `edge` is revoked, by issuing the revocation or applying one. */
  predicate Records(step: Step, agent: string, edge: (string, string)) {
    match step
    case IssueRevoke(a, subject, _, _) => a == agent && edge == (agent, subject)
    case ApplyRevoke(a, revoke) => a == agent && edge == (revoke.issuerId, revoke.subjectId)
    case _ => false
  }

  lemma NextRevocations(w: World, step: Step, agent: string, edge: (string, string))
    ensures edge in RevocationsOf(Next(w, step), agent) <==>
            edge in RevocationsOf(w, agent) || (Enabled(w, step) && Records(step, agent, edge))
  {
  }

  lemma {:induction false} RevocationOrigin(w: World, steps: seq<Step>, n: nat, agent: string,
      edge: (string, string))
      returns (k: nat)
    requires n <= |steps| && edge in RevocationsOf(Run(w, steps[..n]), agent) && !(edge in RevocationsOf(w, agent))
    ensures k < n && Fires(w, steps, k) && Records(steps[k], agent, edge)
  {
    k := n - 1;
    RunOneMore(w, steps, k);
    NextRevocations(Run(w, steps[..k]), steps[k], agent, edge);
    if edge in RevocationsOf(Run(w, steps[..k]), agent) {
      k := RevocationOrigin(w, steps, k, agent, edge);
    }
  }

  lemma RevocationStays(w: World, steps: seq<Step>, n: nat, agent: string, edge: (string, string), k: nat)
    requires k < n <= |steps| && Fires(w, steps, k) && Records(steps[k], agent, edge)
    ensures edge in RevocationsOf(Run(w, steps[..n]), agent)
  {
    RunOneMore(w, steps, k);
    NextRevocations(Run(w, steps[..k]), steps[k], agent, edge);
    GrownBetween(w, steps, k + 1, n);
  }

  /** Exactly which revocations an agent holds after `n` steps; one that was applied verified at that step. */
  lemma RevocationsHaveOrigin(w: World, steps: seq<Step>, n: nat, agent: string, edge: (string, string))
    requires n <= |steps|
    ensures edge in RevocationsOf(Run(w, steps[..n]), agent) <==>
            || edge in RevocationsOf(w, agent)
            || exists k :: 0 <= k < n && Fires(w, steps, k) && Records(steps[k], agent, edge)
  {
    if edge in RevocationsOf(Run(w, steps[..n]), agent) && !(edge in RevocationsOf(w, agent)) {
      var k := RevocationOrigin(w, steps, n, agent, edge);
    }
    forall k | 0 <= k < n && Fires(w, steps, k) && Records(steps[k], agent, edge)
      ensures edge in RevocationsOf(Run(w, steps[..n]), agent)
    {
      RevocationStays(w, steps, n, agent, edge, k);
    }
    GrownBetween(w, steps, 0, n);
  }

  // ---- accepted edges ----

  /** In a run that starts with an empty log, a step of its issuer signed every edge of an accepted chain. */
  lemma AcceptedEdgesWereSigned(w: World, steps: seq<Step>, agent: string, subject: string, chain: seq<Vouch>,
      now: Time, i: nat)
      returns (k: nat)
    requires w.log == {} && agent in w.engines
    requires agent in Run(w, steps).engines && subject !in Run(w, steps).engines[agent].anchors
    requires Accepted(Run(w, steps).engines[agent], Run(w, steps).log, subject, chain, now)
    requires i < |chain|
    ensures k < |steps| && Fires(w, steps, k) && SignsEdge(steps[k], chain[i])
  {
    assert Usable(Run(w, steps).engines[agent], Run(w, steps).log, chain[i], now);
    EdgeVerifiesIff(w, steps, chain[i]);
    k :| 0 <= k < |steps| && Fires(w, steps, k) && SignsEdge(steps[k], chain[i]);
  }

  /** Every nonce answered and every subject revoked holds no bar. Nothing enforces it. */
  predicate BarFreeSigning(steps: seq<Step>) {
    forall k :: 0 <= k < |steps| ==>
      && (steps[k].AnswerHandshake? ==> BarFree(steps[k].request.nonce))
      && (steps[k].IssueRevoke? ==> BarFree(steps[k].subject))
  }

  /** Agents that draw their nonces and name their subjects in base64, as the program does, keep to it. */
  lemma Base64SigningIsBarFree(steps: seq<Step>)
    requires forall k :: 0 <= k < |steps| && steps[k].AnswerHandshake? ==> IsBase64(steps[k].request.nonce)
    requires forall k :: 0 <= k < |steps| && steps[k].IssueRevoke? ==> IsBase64(steps[k].subject)
    ensures BarFreeSigning(steps)
  {
    forall k | 0 <= k < |steps|
      ensures steps[k].AnswerHandshake? ==> BarFree(steps[k].request.nonce)
      ensures steps[k].IssueRevoke? ==> BarFree(steps[k].subject)
    {
      if steps[k].AnswerHandshake? {
        Base64IsBarFree(steps[k].request.nonce);
      } else if steps[k].IssueRevoke? {
        Base64IsBarFree(steps[k].subject);
      }
    }
  }

  /** If nonces and revoked subjects hold no bar, every edge of an accepted chain was issued, field for field. */
  lemma AcceptedEdgesWereIssued(w: World, steps: seq<Step>, agent: string, subject: string, chain: seq<Vouch>,
      now: Time, i: nat)
      returns (k: nat)
    requires w.log == {} && agent in w.engines && BarFreeSigning(steps)
    requires agent in Run(w, steps).engines && subject !in Run(w, steps).engines[agent].anchors
    requires Accepted(Run(w, steps).engines[agent], Run(w, steps).log, subject, chain, now)
    requires i < |chain|
    ensures k < |steps| && Fires(w, steps, k) && Issued(steps[k], chain[i])
  {
    k := AcceptedEdgesWereSigned(w, steps, agent, subject, chain, now, i);
    var e := chain[i];
    assert VouchText(e.issuerId, e.subjectId, e.issuedAt, e.expiresAt)[|e.issuerId|] == '|';
    assert (e.subjectId + "|" + PrintInt(e.issuedAt))[|e.subjectId|] == '|';
  }

  /**
   Without that hypothesis an edge need not have been issued. A sender id is a claim,
   an agent accepts its own, and a nonce is signed as it was sent: so the answer to a
   request in the agent's name whose nonce reads as a vouch makes that vouch, for any
   subject, and the subject is accepted though nobody issued a vouch.
   */
  lemma UnissuedEdgeAccepted(w: World, agent: string, subject: string, at: Time, until: Time, now: Time,
      signature: string)
    requires agent in w.engines && OwnIdsAreAnchors(w) && now <= until
    requires w.engines[agent].maxDepth >= 1 && (agent, subject) !in w.engines[agent].revocations
    ensures var step := AnswerHandshake(agent, HandshakeRequest(agent, [], VouchText(agent, subject, at, until)), at,
                                        signature);
            && Enabled(w, step)
            && agent in Next(w, step).engines
            && Accepted(Next(w, step).engines[agent], Next(w, step).log, subject,
                        [Vouch(agent, subject, at, until, signature)], now)
  {
    var request := HandshakeRequest(agent, [], VouchText(agent, subject, at, until));
    var step := AnswerHandshake(agent, request, at, signature);
    assert Usable(Next(w, step).engines[agent], Next(w, step).log, Vouch(agent, subject, at, until, signature), now);
  }

  /**
   The same of the server's handler, over two requests: the second, in the name of any
   stranger, is answered exactly if trust is off, the stranger is an anchor already, or
   chains may have an edge and this one is not revoked.
   */
  method StrangerIsAnswered(server: P2PServer, stranger: string, at: Time, until: Time, now: Time, first: string,
      nonce: string, second: string, log: SignatureLog)
      returns (reply: HandshakeReply, log': SignatureLog)
    requires server.trustEngine.agentId in server.trustEngine.trustAnchors && now <= until
    ensures var knows := server.trustEngine.Knows();
            if server.devTrustAll || stranger in knows.anchors
               || (knows.maxDepth >= 1 && (server.trustEngine.agentId, stranger) !in knows.revocations)
            then reply == Response(server.trustEngine.agentId, second)
            else reply == Refused(403)
  {
    var id := server.trustEngine.agentId;
    var request := HandshakeRequest(id, [], VouchText(id, stranger, at, until));
    var _, made := server.HandleHandshake(Ok(request), at, first, log);
    var edge := Vouch(id, stranger, at, until, first);
    assert SignatureValid(made, edge);
    reply, log' := server.HandleHandshake(Ok(HandshakeRequest(stranger, [edge], nonce)), now, second, made);
  }

  /**
   Conversely, a vouch issued during a run is accepted, until it expires, by every
   agent that has its issuer as an anchor and holds no revocation of the edge.
   */
  lemma IssuedVouchAccepted(w: World, before: seq<Step>, issue: Step, after: seq<Step>, agent: string, now: Time)
    requires issue.IssueVouch? && issue.agent in Run(w, before).engines
    requires var later := Run(Run(w, before + [issue]), after);
             && agent in later.engines
             && issue.agent in later.engines[agent].anchors && later.engines[agent].maxDepth >= 1
             && (issue.agent, issue.subject) !in later.engines[agent].revocations
    requires now <= issue.at + issue.ttl
    ensures var later := Run(Run(w, before + [issue]), after);
            Accepted(later.engines[agent], later.log, issue.subject,
                     [Vouch(issue.agent, issue.subject, issue.at, issue.at + issue.ttl, issue.signature)], now)
  {
    var middle := Run(w, before + [issue]);
    assert (before + [issue])[..|before|] == before;
    RunsGrow(middle, after);
    var e := Vouch(issue.agent, issue.subject, issue.at, issue.at + issue.ttl, issue.signature);
    assert Usable(Run(middle, after).engines[agent], Run(middle, after).log, e, now);
  }

  /** The revocation recorded at step `k` was issued by the edge's issuer there, or at an earlier step `j`. */
  predicate IssuedBefore(steps: seq<Step>, j: nat, k: nat, issuer: string, subject: string)
    requires j < |steps| && k < |steps|
  {
    && steps[j].IssueRevoke? && steps[j].agent == issuer && steps[j].subject == subject
    && (j == k || (j < k && steps[k].ApplyRevoke?
                   && steps[k].revoke.revokedAt == steps[j].at && steps[k].revoke.signature == steps[j].signature))
  }

  /**
   If nonces hold no bar, nobody but its issuer can revoke an edge between agents:
   every revocation an agent gains in a run was issued by that issuer, no later than
   the agent recorded it.
   */
  lemma RevocationsWereIssued(w: World, steps: seq<Step>, agent: string, issuer: string, subject: string)
      returns (j: nat, k: nat)
    requires w.log == {} && BarFreeSigning(steps) && BarFree(subject)
    requires (issuer, subject) in RevocationsOf(Run(w, steps), agent) - RevocationsOf(w, agent)
    ensures j < |steps| && k < |steps| && Fires(w, steps, j) && Fires(w, steps, k)
    ensures Records(steps[k], agent, (issuer, subject)) && IssuedBefore(steps, j, k, issuer, subject)
  {
    RevocationsHaveOrigin(w, steps, |steps|, agent, (issuer, subject));
    assert steps[..|steps|] == steps;
    k :| 0 <= k < |steps| && Fires(w, steps, k) && Records(steps[k], agent, (issuer, subject));
    j := k;
    if steps[k].ApplyRevoke? {
      j := RevokeWasIssued(w, steps[..k], steps[k].revoke);
      FiresInPrefix(w, steps, k, j);
    }
  }

  lemma RevokeWasIssued(w: World, steps: seq<Step>, r: Revoke) returns (k: nat)
    requires w.log == {} && RevokeValid(Run(w, steps).log, r) && BarFree(r.subjectId)
    requires BarFreeSigning(steps)
    ensures k < |steps| && Fires(w, steps, k)
    ensures steps[k] == IssueRevoke(r.issuerId, r.subjectId, r.revokedAt, r.signature)
  {
    RevokeVerifiesIff(w, steps, r);
    k :| 0 <= k < |steps| && Fires(w, steps, k) && SignsRevoke(steps[k], r);
    assert RevokeText(r.issuerId, r.subjectId, r.revokedAt)[|r.issuerId|] == '|';
  }

  // ---- handshake and transfer ----

  /** A handshake accepted with an empty chain opens the transfer gate at every later point of every run. */
  lemma {:induction false} HandshakeOpensGate(w: World, steps: seq<Step>, server: string, sender: string, now: Time)
    requires server in w.engines
    requires HandshakeAccepted(w.engines[server], w.log, server in w.trustAll, sender, [], now)
    ensures server in Run(w, steps).engines
    ensures GateOpen(server in Run(w, steps).trustAll, Run(w, steps).engines[server].anchors, sender)
  {
    RunsGrow(w, steps);
  }

  // ---- the classes do what the steps say ----

  /** The agent behind these objects is `agent` of the world, and knows there what it knows here. */
  ghost predicate Represents(w: World, server: P2PServer, downloader: Downloader)
    reads server.trustEngine
  {
    && downloader.trustEngine == server.trustEngine
    && server.trustEngine.agentId in w.engines
    && w.engines[server.trustEngine.agentId] == server.trustEngine.Knows()
    && (server.trustEngine.agentId in w.trustAll <==> server.devTrustAll)
  }

  /**
   One step, carried out by the agent's own engine, server or downloader: the log and
   what the agent knows afterwards are those of `Next`. A handshake that the agent
   completes is over a nonce it drew, answered as `env` says.
   */
  method Perform(server: P2PServer, downloader: Downloader, env: Environment, w: World, step: Step)
      returns (log: SignatureLog)
    requires Represents(w, server, downloader) && step.agent == server.trustEngine.agentId
    requires step.CompleteHandshake? ==>
               && IsBase64(step.nonce) && env.log == w.log && env.nonces(0) == Utf8.Encode(step.nonce)
               && env.replies(0) == Response(step.peer, step.signature)
    modifies server.trustEngine
    ensures log == Next(w, step).log
    ensures Represents(Next(w, step), server, downloader)
  {
    var engine := server.trustEngine;
    log := w.log;
    match step {
      case IssueVouch(_, subject, at, ttl, signature) =>
        var _, made := engine.IssueVouch(subject, at, ttl, signature, w.log);
        log := made;
      case IssueRevoke(_, subject, at, signature) =>
        var _, made := engine.IssueRevoke(subject, at, "", signature, w.log);
        log := made;
      case AnswerHandshake(_, request, at, signature) =>
        var _, made := server.HandleHandshake(Ok(request), at, signature, w.log);
        log := made;
      case ApplyRevoke(_, revoke) =>
        var _ := engine.ApplyRevoke(revoke, w.log);
      case CompleteHandshake(_, _, _, _) =>
        var _ := downloader.HandshakePeer(env, 0);
    }
  }
}

/**
 The trust engine: signed vouches, revocations, and the chain walk that decides
 whether a subject is trusted. Signatures are ideal: a signature verifies exactly
 when the log records that this key produced it over these bytes.
 */
module Trust {
  import opened Bytes
  import opened Decimal
  import Utf8

  type Time = int

  datatype Vouch = Vouch(issuerId: string, subjectId: string, issuedAt: Time, expiresAt: Time, signature: string)

  datatype Revoke = Revoke(issuerId: string, subjectId: string, revokedAt: Time, reason: string, signature: string)

  datatype Signed = Signed(signer: string, data: bytes, signature: string)

  type SignatureLog = set<Signed>

  predicate Verify(log: SignatureLog, agentId: string, data: bytes, signature: string) {
    Signed(agentId, data, signature) in log
  }

  function VouchText(issuerId: string, subjectId: string, issuedAt: Time, expiresAt: Time): string {
    issuerId + "|" + subjectId + "|" + PrintInt(issuedAt) + "|" + PrintInt(expiresAt)
  }

  function RevokeText(issuerId: string, subjectId: string, revokedAt: Time): string {
    issuerId + "|" + subjectId + "|" + PrintInt(revokedAt)
  }

  function VouchSigningBytes(issuerId: string, subjectId: string, issuedAt: Time, expiresAt: Time): bytes {
    Utf8.Encode(VouchText(issuerId, subjectId, issuedAt, expiresAt))
  }

  function RevokeSigningBytes(issuerId: string, subjectId: string, revokedAt: Time): bytes {
    Utf8.Encode(RevokeText(issuerId, subjectId, revokedAt))
  }

  /** What an engine knows: whom it trusts outright, which edges are revoked, how long a chain may be. */
  datatype View = View(anchors: set<string>, revocations: set<(string, string)>, maxDepth: int)

  function WithAnchor(v: View, agentId: string): View { v.(anchors := v.anchors + {agentId}) }

  function WithRevocation(v: View, issuerId: string, subjectId: string): View {
    v.(revocations := v.revocations + {(issuerId, subjectId)})
  }

  datatype Reason =
    | SubjectIsAnchor | NoChain | TooDeep | RootNotAnchor
    | BadSignature | Expired | Revoked | Break
    | WrongTerminus | ValidChain

  datatype TrustResult = TrustResult(trusted: bool, reason: Reason, depth: nat)

  // ---- the declarative account of acceptance ----

  predicate SignatureValid(log: SignatureLog, e: Vouch) {
    Verify(log, e.issuerId, VouchSigningBytes(e.issuerId, e.subjectId, e.issuedAt, e.expiresAt), e.signature)
  }

  /** An edge that may carry trust at time `now`. */
  predicate Usable(v: View, log: SignatureLog, e: Vouch, now: Time) {
    && SignatureValid(log, e)
    && now <= e.expiresAt
    && (e.issuerId, e.subjectId) !in v.revocations
  }

  predicate Contiguous(chain: seq<Vouch>) {
    forall i :: 0 < i < |chain| ==> chain[i - 1].subjectId == chain[i].issuerId
  }

  /** Said of each edge and the next. */
  lemma ContiguousForward(chain: seq<Vouch>)
    ensures Contiguous(chain) <==>
            forall i :: 0 <= i < |chain| && i + 1 < |chain| ==> chain[i].subjectId == chain[i + 1].issuerId
  {
    if forall i :: 0 <= i < |chain| && i + 1 < |chain| ==> chain[i].subjectId == chain[i + 1].issuerId {
      forall i | 0 < i < |chain|
        ensures chain[i - 1].subjectId == chain[i].issuerId
      {
        assert (i - 1) + 1 < |chain|;
        assert chain[i - 1].subjectId == chain[(i - 1) + 1].issuerId;
      }
    }
  }

  /** A path of usable edges that starts at an anchor and ends at `subject`. */
  predicate TrustPath(v: View, log: SignatureLog, subject: string, chain: seq<Vouch>, now: Time) {
    && chain != []
    && chain[0].issuerId in v.anchors
    && (forall i :: 0 <= i < |chain| ==> Usable(v, log, chain[i], now))
    && Contiguous(chain)
    && chain[|chain| - 1].subjectId == subject
  }

  predicate Accepted(v: View, log: SignatureLog, subject: string, chain: seq<Vouch>, now: Time) {
    subject in v.anchors || (|chain| <= v.maxDepth && TrustPath(v, log, subject, chain, now))
  }

  /** The first of the four checks that edge `i` fails, in the order they are tried. */
  function EdgeFault(v: View, log: SignatureLog, chain: seq<Vouch>, i: nat, now: Time): Option<Reason>
    requires i < |chain|
  {
    if !SignatureValid(log, chain[i]) then Some(BadSignature)
    else if chain[i].expiresAt < now then Some(Expired)
    else if (chain[i].issuerId, chain[i].subjectId) in v.revocations then Some(Revoked)
    else if i + 1 < |chain| && chain[i].subjectId != chain[i + 1].issuerId then Some(Break)
    else None
  }

  predicate Sound(v: View, log: SignatureLog, chain: seq<Vouch>, n: nat, now: Time)
    requires n <= |chain|
  {
    forall i :: 0 <= i < n ==> EdgeFault(v, log, chain, i, now) == None
  }

  /** Edge number `depth`, counted from one, is the first that fails a check, `reason` being the first it fails. */
  predicate FaultAt(v: View, log: SignatureLog, chain: seq<Vouch>, now: Time, reason: Reason, depth: nat) {
    && 1 <= depth <= |chain|
    && Sound(v, log, chain, depth - 1, now)
    && EdgeFault(v, log, chain, depth - 1, now) == Some(reason)
  }

  /** `r` is a correct answer: its reason is the first thing wrong with the chain, at its depth. */
  predicate Verdict(v: View, log: SignatureLog, subject: string, chain: seq<Vouch>, now: Time, r: TrustResult) {
    var n := |chain|;
    var shaped := subject !in v.anchors && 0 < n <= v.maxDepth && chain[0].issuerId in v.anchors;
    match r.reason
    case SubjectIsAnchor => r.trusted && r.depth == 0 && subject in v.anchors
    case NoChain => !r.trusted && r.depth == 0 && subject !in v.anchors && n == 0
    case TooDeep => !r.trusted && r.depth == n && subject !in v.anchors && n > 0 && n > v.maxDepth
    case RootNotAnchor =>
      !r.trusted && r.depth == n && subject !in v.anchors && 0 < n <= v.maxDepth && chain[0].issuerId !in v.anchors
    case WrongTerminus =>
      !r.trusted && r.depth == n && shaped && Sound(v, log, chain, n, now) && chain[n - 1].subjectId != subject
    case ValidChain =>
      r.trusted && r.depth == n && shaped && Sound(v, log, chain, n, now) && chain[n - 1].subjectId == subject
    case _ =>
      !r.trusted && shaped && FaultAt(v, log, chain, now, r.reason, r.depth)
  }

  lemma FaultUnique(v: View, log: SignatureLog, chain: seq<Vouch>, now: Time, r: Reason, d: nat, r': Reason, d': nat)
    requires FaultAt(v, log, chain, now, r, d) && FaultAt(v, log, chain, now, r', d')
    ensures r == r' && d == d'
  {
  }

  predicate IsEdgeReason(r: Reason) { r.BadSignature? || r.Expired? || r.Revoked? || r.Break? }

  lemma EdgeVerdict(v: View, log: SignatureLog, subject: string, chain: seq<Vouch>, now: Time, r: TrustResult)
    requires Verdict(v, log, subject, chain, now, r) && IsEdgeReason(r.reason)
    ensures FaultAt(v, log, chain, now, r.reason, r.depth) && !Sound(v, log, chain, |chain|, now)
  {
  }

  /** The verdict is determined: reason, depth and answer all follow from the inputs. */
  lemma VerdictUnique(v: View, log: SignatureLog, subject: string, chain: seq<Vouch>, now: Time, r: TrustResult,
      s: TrustResult)
    requires Verdict(v, log, subject, chain, now, r) && Verdict(v, log, subject, chain, now, s)
    ensures r == s
  {
    if IsEdgeReason(r.reason) {
      EdgeVerdict(v, log, subject, chain, now, r);
    }
    if IsEdgeReason(s.reason) {
      EdgeVerdict(v, log, subject, chain, now, s);
    }
    if IsEdgeReason(r.reason) && IsEdgeReason(s.reason) {
      FaultUnique(v, log, chain, now, r.reason, r.depth, s.reason, s.depth);
    }
  }

  lemma SoundIsUsable(v: View, log: SignatureLog, chain: seq<Vouch>, now: Time)
    ensures Sound(v, log, chain, |chain|, now) <==>
            (forall i :: 0 <= i < |chain| ==> Usable(v, log, chain[i], now)) && Contiguous(chain)
  {
    if Sound(v, log, chain, |chain|, now) {
      forall i | 0 <= i < |chain|
        ensures Usable(v, log, chain[i], now)
        ensures i > 0 ==> chain[i - 1].subjectId == chain[i].issuerId
      {
        assert EdgeFault(v, log, chain, i, now) == None;
        if i > 0 {
          assert EdgeFault(v, log, chain, i - 1, now) == None;
        }
      }
    }
  }

  /** Soundness and completeness of the walk: it answers yes exactly on the accepted chains. */
  lemma VerdictIsAcceptance(v: View, log: SignatureLog, subject: string, chain: seq<Vouch>, now: Time, r: TrustResult)
    requires Verdict(v, log, subject, chain, now, r)
    ensures r.trusted <==> Accepted(v, log, subject, chain, now)
  {
    SoundIsUsable(v, log, chain, now);
    if IsEdgeReason(r.reason) {
      EdgeVerdict(v, log, subject, chain, now, r);
    }
  }

  /** Edge `i` is signed, unexpired and unrevoked, and ends where the next edge begins. */
  predicate Passes(v: View, log: SignatureLog, chain: seq<Vouch>, i: nat, now: Time)
    requires i < |chain|
  {
    Usable(v, log, chain[i], now) && (i + 1 < |chain| ==> chain[i].subjectId == chain[i + 1].issuerId)
  }

  predicate WalkedPast(v: View, log: SignatureLog, chain: seq<Vouch>, n: nat, now: Time)
    requires n <= |chain|
  {
    forall i :: 0 <= i < n ==> Passes(v, log, chain, i, now)
  }

  lemma SoundIsWalked(v: View, log: SignatureLog, chain: seq<Vouch>, n: nat, now: Time)
    requires n <= |chain|
    ensures Sound(v, log, chain, n, now) <==> WalkedPast(v, log, chain, n, now)
  {
    forall i | 0 <= i < n
      ensures EdgeFault(v, log, chain, i, now) == None <==> Passes(v, log, chain, i, now)
    {
    }
  }

  /** What a reason means that names an edge: it is the first at fault, and the reason is the first check it fails. */
  predicate EdgeReasonMeans(v: View, log: SignatureLog, chain: seq<Vouch>, now: Time, r: TrustResult) {
    && 1 <= r.depth <= |chain|
    && WalkedPast(v, log, chain, r.depth - 1, now)
    && var e := chain[r.depth - 1];
       var signed := Signed(e.issuerId, VouchSigningBytes(e.issuerId, e.subjectId, e.issuedAt, e.expiresAt),
                            e.signature) in log;
       var revoked := (e.issuerId, e.subjectId) in v.revocations;
       && (r.reason == BadSignature <==> !signed)
       && (r.reason == Expired <==> signed && e.expiresAt < now)
       && (r.reason == Revoked <==> signed && now <= e.expiresAt && revoked)
       && (r.reason == Break <==>
             && signed && now <= e.expiresAt && !revoked
             && r.depth < |chain| && e.subjectId != chain[r.depth].issuerId)
  }

  /** What every answer means, said without the walk: each reason is given exactly when it is the first to apply. */
  lemma VerdictMeans(v: View, log: SignatureLog, subject: string, chain: seq<Vouch>, now: Time, r: TrustResult)
    requires Verdict(v, log, subject, chain, now, r)
    ensures r.reason == SubjectIsAnchor <==> subject in v.anchors
    ensures r.reason == NoChain <==> subject !in v.anchors && chain == []
    ensures r.reason == TooDeep <==> subject !in v.anchors && chain != [] && |chain| > v.maxDepth
    ensures r.reason == RootNotAnchor <==>
            subject !in v.anchors && 1 <= |chain| <= v.maxDepth && chain[0].issuerId !in v.anchors
    ensures var walked := subject !in v.anchors && 1 <= |chain| <= v.maxDepth && chain[0].issuerId in v.anchors;
            && (r.reason == WrongTerminus <==>
                  walked && WalkedPast(v, log, chain, |chain|, now) && chain[|chain| - 1].subjectId != subject)
            && (r.reason == ValidChain <==>
                  walked && WalkedPast(v, log, chain, |chain|, now) && chain[|chain| - 1].subjectId == subject)
            && (r.reason in {BadSignature, Expired, Revoked, Break} <==>
                  walked && !WalkedPast(v, log, chain, |chain|, now))
    ensures r.reason in {BadSignature, Expired, Revoked, Break} ==> EdgeReasonMeans(v, log, chain, now, r)
    ensures r.trusted <==> r.reason in {SubjectIsAnchor, ValidChain}
    ensures r.reason in {SubjectIsAnchor, NoChain} ==> r.depth == 0
    ensures r.reason in {TooDeep, RootNotAnchor, WrongTerminus, ValidChain} ==> r.depth == |chain|
  {
    SoundIsWalked(v, log, chain, |chain|, now);
    if IsEdgeReason(r.reason) {
      EdgeVerdict(v, log, subject, chain, now, r);
      SoundIsWalked(v, log, chain, r.depth - 1, now);
    }
  }

  // ---- the engine ----

  class TrustEngine {
    const agentId: string
    const maxDepth: int
    var trustAnchors: set<string>
    var revocations: set<(string, string)>

    /** The local agent always trusts itself. */
    constructor (agentId: string, anchors: set<string>, maxDepth: int)
      ensures this.agentId == agentId
      ensures Knows() == View(anchors + {agentId}, {}, maxDepth)
    {
      this.agentId := agentId;
      this.maxDepth := maxDepth;
      trustAnchors := anchors + {agentId};
      revocations := {};
    }

    function Knows(): View
      reads this
    {
      View(trustAnchors, revocations, maxDepth)
    }

    /** Signs a vouch; the log gains the bytes this vouch's signature is checked against. */
    method IssueVouch(subjectId: string, now: Time, ttl: Time, signature: string, log: SignatureLog)
      returns (vouch: Vouch, log': SignatureLog)
      ensures vouch == Vouch(agentId, subjectId, now, now + ttl, signature)
      ensures log' == log + {Signed(agentId, VouchSigningBytes(agentId, subjectId, now, now + ttl), signature)}
      ensures SignatureValid(log', vouch)
    {
      var expiresAt := now + ttl;
      log' := log + {Signed(agentId, VouchSigningBytes(agentId, subjectId, now, expiresAt), signature)};
      vouch := Vouch(agentId, subjectId, now, expiresAt, signature);
    }

    method IssueRevoke(subjectId: string, now: Time, reason: string, signature: string, log: SignatureLog)
      returns (revoke: Revoke, log': SignatureLog)
      modifies this
      ensures revoke == Revoke(agentId, subjectId, now, reason, signature)
      ensures log' == log + {Signed(agentId, RevokeSigningBytes(agentId, subjectId, now), signature)}
      ensures Knows() == WithRevocation(old(Knows()), agentId, subjectId)
    {
      log' := log + {Signed(agentId, RevokeSigningBytes(agentId, subjectId, now), signature)};
      revoke := Revoke(agentId, subjectId, now, reason, signature);
      revocations := revocations + {(agentId, subjectId)};
    }

    /** Applies an incoming revocation exactly when its issuer signed it; otherwise nothing changes. */
    method ApplyRevoke(revoke: Revoke, log: SignatureLog) returns (applied: bool)
      modifies this
      ensures applied <==> RevokeValid(log, revoke)
      ensures Knows() ==
              if applied then WithRevocation(old(Knows()), revoke.issuerId, revoke.subjectId) else old(Knows())
    {
      var data := RevokeSigningBytes(revoke.issuerId, revoke.subjectId, revoke.revokedAt);
      if !Verify(log, revoke.issuerId, data, revoke.signature) {
        return false;
      }
      revocations := revocations + {(revoke.issuerId, revoke.subjectId)};
      applied := true;
    }

    predicate IsRevoked(issuerId: string, subjectId: string)
      reads this
    {
      (issuerId, subjectId) in revocations
    }

    /** Decides whether a chain connects `subjectId` to an anchor, and why not if it does not. */
    method VerifyChain(subjectId: string, chain: seq<Vouch>, now: Time, log: SignatureLog) returns (r: TrustResult)
      ensures Verdict(Knows(), log, subjectId, chain, now, r)
      ensures r.trusted <==> Accepted(Knows(), log, subjectId, chain, now)
    {
      if subjectId in trustAnchors {
        r := TrustResult(true, SubjectIsAnchor, 0);
      } else if chain == [] {
        r := TrustResult(false, NoChain, 0);
      } else if |chain| > maxDepth {
        r := TrustResult(false, TooDeep, |chain|);
      } else if chain[0].issuerId !in trustAnchors {
        r := TrustResult(false, RootNotAnchor, |chain|);
      } else {
        var fault, depth := WalkEdges(chain, now, log);
        if fault.Some? {
          r := TrustResult(false, fault.value, depth);
        } else if chain[|chain| - 1].subjectId != subjectId {
          r := TrustResult(false, WrongTerminus, |chain|);
        } else {
          r := TrustResult(true, ValidChain, |chain|);
        }
      }
      VerdictIsAcceptance(Knows(), log, subjectId, chain, now, r);
    }

    /** The early-exit loop over the edges: the first fault and its depth, or none. */
    method WalkEdges(chain: seq<Vouch>, now: Time, log: SignatureLog) returns (fault: Option<Reason>, depth: nat)
      ensures fault.Some? ==> IsEdgeReason(fault.value) && FaultAt(Knows(), log, chain, now, fault.value, depth)
      ensures fault.None? ==> Sound(Knows(), log, chain, |chain|, now)
    {
      fault, depth := None, 0;
      while depth < |chain|
        invariant depth <= |chain| && fault.None?
        invariant Sound(Knows(), log, chain, depth, now)
      {
        fault := CheckEdge(chain, depth, now, log);
        depth := depth + 1;
        if fault.Some? {
          return;
        }
      }
    }

    /** The four checks of one edge, in order. */
    method CheckEdge(chain: seq<Vouch>, i: nat, now: Time, log: SignatureLog) returns (fault: Option<Reason>)
      requires i < |chain|
      ensures fault == EdgeFault(Knows(), log, chain, i, now)
      ensures fault.Some? ==> IsEdgeReason(fault.value)
    {
      var vouch := chain[i];
      if !SignatureValid(log, vouch) {
        return Some(BadSignature);
      }
      if vouch.expiresAt < now {
        return Some(Expired);
      }
      if IsRevoked(vouch.issuerId, vouch.subjectId) {
        return Some(Revoked);
      }
      if i + 1 < |chain| && vouch.subjectId != chain[i + 1].issuerId {
        return Some(Break);
      }
      fault := None;
    }
  }

  predicate RevokeValid(log: SignatureLog, r: Revoke) {
    Verify(log, r.issuerId, RevokeSigningBytes(r.issuerId, r.subjectId, r.revokedAt), r.signature)
  }
}

/**
 What chain acceptance means as a graph search, and how it behaves when chains are
 cut, joined, or judged by an engine that knows more.
 */
module TrustGraph {
  import opened Trust

  /** `subject` is within `k` hops of an anchor along usable vouches of the pool. */
  predicate Within(v: View, log: SignatureLog, pool: set<Vouch>, now: Time, k: nat, subject: string)
    decreases k
  {
    if k == 0 then subject in v.anchors
    else
      || Within(v, log, pool, now, k - 1, subject)
      || exists e :: e in pool && Usable(v, log, e, now) && e.subjectId == subject
                     && Within(v, log, pool, now, k - 1, e.issuerId)
  }

  predicate DrawnFrom(chain: seq<Vouch>, pool: set<Vouch>) {
    forall i :: 0 <= i < |chain| ==> chain[i] in pool
  }

  function Hops(v: View): nat { if v.maxDepth < 0 then 0 else v.maxDepth }

  lemma {:induction false} WithinMoreHops(v: View, log: SignatureLog, pool: set<Vouch>, now: Time, j: nat, k: nat,
      subject: string)
    requires j <= k && Within(v, log, pool, now, j, subject)
    ensures Within(v, log, pool, now, k, subject)
  {
    if j < k {
      WithinMoreHops(v, log, pool, now, j, k - 1, subject);
    }
  }

  lemma {:induction false} PathReaches(v: View, log: SignatureLog, pool: set<Vouch>, now: Time, chain: seq<Vouch>,
      n: nat)
    requires chain != [] && TrustPath(v, log, chain[|chain| - 1].subjectId, chain, now) && DrawnFrom(chain, pool)
    requires 1 <= n <= |chain|
    ensures Within(v, log, pool, now, n, chain[n - 1].subjectId)
  {
    var e := chain[n - 1];
    assert e in pool && Usable(v, log, e, now);
    if n > 1 {
      PathReaches(v, log, pool, now, chain, n - 1);
      assert chain[n - 2].subjectId == e.issuerId;
    }
  }

  /** `chain` witnesses that `subject` can be trusted within `k` hops, if it is not an anchor already. */
  predicate Witness(v: View, log: SignatureLog, pool: set<Vouch>, now: Time, k: nat, subject: string,
      chain: seq<Vouch>) {
    DrawnFrom(chain, pool) && |chain| <= k && (subject in v.anchors || TrustPath(v, log, subject, chain, now))
  }

  lemma WitnessLasts(v: View, log: SignatureLog, pool: set<Vouch>, now: Time, k: nat, subject: string,
      chain: seq<Vouch>)
    requires Witness(v, log, pool, now, k, subject, chain)
    ensures Witness(v, log, pool, now, k + 1, subject, chain)
  {
  }

  lemma ExtendWitness(v: View, log: SignatureLog, pool: set<Vouch>, now: Time, k: nat, e: Vouch, front: seq<Vouch>)
      returns (chain: seq<Vouch>)
    requires Witness(v, log, pool, now, k, e.issuerId, front)
    requires e in pool && Usable(v, log, e, now)
    ensures Witness(v, log, pool, now, k + 1, e.subjectId, chain)
  {
    chain := if e.issuerId in v.anchors then [e] else front + [e];
    forall i | 0 <= i < |chain|
      ensures Usable(v, log, chain[i], now)
      ensures i > 0 ==> chain[i - 1].subjectId == chain[i].issuerId
    {
      assert i < |chain| - 1 ==> Usable(v, log, front[i], now);
    }
  }

  lemma {:induction false} WithinHasPath(v: View, log: SignatureLog, pool: set<Vouch>, now: Time, k: nat,
      subject: string)
      returns (chain: seq<Vouch>)
    requires Within(v, log, pool, now, k, subject)
    ensures Witness(v, log, pool, now, k, subject, chain)
    decreases k
  {
    if k == 0 {
      chain := [];
    } else if Within(v, log, pool, now, k - 1, subject) {
      chain := WithinHasPath(v, log, pool, now, k - 1, subject);
      WitnessLasts(v, log, pool, now, k - 1, subject, chain);
    } else {
      var e :| e in pool && Usable(v, log, e, now) && e.subjectId == subject
               && Within(v, log, pool, now, k - 1, e.issuerId);
      var front := WithinHasPath(v, log, pool, now, k - 1, e.issuerId);
      chain := ExtendWitness(v, log, pool, now, k - 1, e, front);
    }
  }

  /** Trust is bounded reachability: a chain from the pool is accepted iff the subject is near enough to an anchor. */
  lemma TrustIsReachability(v: View, log: SignatureLog, pool: set<Vouch>, now: Time, subject: string)
    ensures (exists chain :: DrawnFrom(chain, pool) && Accepted(v, log, subject, chain, now))
            <==> Within(v, log, pool, now, Hops(v), subject)
  {
    if chain :| DrawnFrom(chain, pool) && Accepted(v, log, subject, chain, now) {
      if subject in v.anchors {
        WithinMoreHops(v, log, pool, now, 0, Hops(v), subject);
      } else {
        PathReaches(v, log, pool, now, chain, |chain|);
        WithinMoreHops(v, log, pool, now, |chain|, Hops(v), subject);
      }
    }
    if Within(v, log, pool, now, Hops(v), subject) {
      var chain := WithinHasPath(v, log, pool, now, Hops(v), subject);
      assert DrawnFrom(chain, pool) && Accepted(v, log, subject, chain, now);
    }
  }

  // ---- chain algebra ----

  /** `w` is at least as generous as `v`: more anchors, longer chains, fewer revocations. */
  predicate AsGenerous(v: View, w: View) {
    v.anchors <= w.anchors && v.maxDepth <= w.maxDepth && w.revocations <= v.revocations
  }

  /** More anchors or depth never lose trust; more revocations or a later clock never gain it. */
  lemma AcceptanceMonotone(v: View, w: View, log: SignatureLog, log': SignatureLog, subject: string,
      chain: seq<Vouch>, now: Time, earlier: Time)
    requires AsGenerous(v, w) && log <= log' && earlier <= now
    requires Accepted(v, log, subject, chain, now)
    ensures Accepted(w, log', subject, chain, earlier)
  {
  }

  /** Every non-empty prefix of a trust path is a trust path to its own last subject. */
  lemma PrefixIsPath(v: View, log: SignatureLog, subject: string, chain: seq<Vouch>, now: Time, n: nat)
    requires TrustPath(v, log, subject, chain, now) && 1 <= n <= |chain|
    ensures TrustPath(v, log, chain[n - 1].subjectId, chain[..n], now)
    ensures n <= v.maxDepth ==> Accepted(v, log, chain[n - 1].subjectId, chain[..n], now)
  {
  }

  /**
   A path to `middle` followed by a path that takes `middle` as its only anchor is
   a path to the end, accepted exactly if it is short enough or its end an anchor.
   */
  lemma JoinedIsPath(v: View, log: SignatureLog, middle: string, left: seq<Vouch>, subject: string,
      right: seq<Vouch>, now: Time)
    requires TrustPath(v, log, middle, left, now)
    requires TrustPath(v.(anchors := {middle}), log, subject, right, now)
    ensures TrustPath(v, log, subject, left + right, now)
    ensures Accepted(v, log, subject, left + right, now) <==> |left| + |right| <= v.maxDepth || subject in v.anchors
  {
  }
}

/**
 The registry against a plain event history that never prunes: what a read
 answers, over every run, is a function of the announcements alone.
 */
module RegistryHistory {
  import opened Bytes
  import opened Registry

  datatype Event =
    | Register(fileHash: string, peer: PeerInfo, at: Time)
    | Unregister(fileHash: string, agentId: string, at: Time)
    | UnregisterAll(agentId: string, at: Time)
    | Read(fileHash: string, at: Time)

  function Stamped(p: PeerInfo, at: Time): PeerInfo { PeerInfo(p.agentId, p.host, p.port, at) }

  function Apply(ttl: Time, store: Store, e: Event): Store {
    match e
    case Register(f, peer, at) => Registered(store, f, Stamped(peer, at))
    case Unregister(f, agentId, _) => Unregistered(store, f, agentId)
    case UnregisterAll(agentId, _) => UnregisteredAll(store, agentId)
    case Read(f, at) => Pruned(store, f, ttl, at)
  }

  /** The store after a run from the empty registry. */
  function Replay(ttl: Time, events: seq<Event>): Store {
    if events == [] then map[] else Apply(ttl, Replay(ttl, events[..|events| - 1]), events[|events| - 1])
  }

  /** The answer to a read of `f` at `now` after a run. */
  function Answer(ttl: Time, events: seq<Event>, f: string, now: Time): seq<PeerInfo> {
    Live(Entries(Replay(ttl, events), f), ttl, now)
  }

  // ---- the class does what the events say ----

  /** One event, carried out on the registry itself at the event's time. */
  method Perform(registry: Registry, e: Event)
    requires registry.Valid()
    modifies registry
    ensures registry.Valid()
    ensures registry.store == Apply(registry.peerTtl, old(registry.store), e)
  {
    match e {
      case Register(f, peer, at) => registry.Register(f, peer, at);
      case Unregister(f, agentId, _) => registry.Unregister(f, agentId);
      case UnregisterAll(agentId, _) => registry.UnregisterAll(agentId);
      case Read(f, at) => var _ := registry.GetPeers(f, None, at);
    }
  }

  /** A registry that carries out a whole run and is then read answers as the run says. */
  method PerformAll(ttl: Time, events: seq<Event>, f: string, now: Time) returns (live: seq<PeerInfo>)
    ensures live == Answer(ttl, events, f, now)
  {
    var registry := new Registry(ttl);
    for i := 0 to |events|
      invariant registry.Valid() && fresh(registry) && registry.peerTtl == ttl
      invariant registry.store == Replay(ttl, events[..i])
    {
      assert events[..i + 1][..i] == events[..i];
      Perform(registry, events[i]);
    }
    assert events[..|events|] == events;
    live := registry.GetPeers(f, None, now);
  }

  /** What the history says of an agent: its last announcement for `f`, unless it left since. */
  function Latest(events: seq<Event>, f: string, a: string): (r: Option<PeerInfo>)
    ensures r.Some? ==> r.value.agentId == a
  {
    if events == [] then None
    else
      match events[|events| - 1]
      case Register(f', peer, at) =>
        if f' == f && peer.agentId == a then Some(Stamped(peer, at)) else Latest(events[..|events| - 1], f, a)
      case Unregister(f', a', _) =>
        if f' == f && a' == a then None else Latest(events[..|events| - 1], f, a)
      case UnregisterAll(a', _) =>
        if a' == a then None else Latest(events[..|events| - 1], f, a)
      case Read(_, _) => Latest(events[..|events| - 1], f, a)
  }

  /** The record the history has of `a` is past its time at `at`. */
  predicate Stale(ttl: Time, events: seq<Event>, f: string, a: string, at: Time) {
    Latest(events, f, a).Some? && IsExpired(Latest(events, f, a).value, ttl, at)
  }

  /** A read of `f` found `a`'s standing record stale, and `a` has neither announced `f` again nor left since. */
  predicate Dropped(ttl: Time, events: seq<Event>, f: string, a: string) {
    if events == [] then false
    else
      var front := events[..|events| - 1];
      match events[|events| - 1]
      case Register(f', peer, _) => !(f' == f && peer.agentId == a) && Dropped(ttl, front, f, a)
      case Unregister(f', a', _) => !(f' == f && a' == a) && Dropped(ttl, front, f, a)
      case UnregisterAll(a', _) => a' != a && Dropped(ttl, front, f, a)
      case Read(f', at) => Dropped(ttl, front, f, a) || (f' == f && Stale(ttl, front, f, a, at))
  }

  /** `p` is its agent's last announcement for `f`, and no read has dropped it. */
  predicate Stands(ttl: Time, events: seq<Event>, f: string, p: PeerInfo) {
    Latest(events, f, p.agentId) == Some(p) && !Dropped(ttl, events, f, p.agentId)
  }

  lemma {:induction false} DroppedHasRecord(ttl: Time, events: seq<Event>, f: string, a: string)
    requires Dropped(ttl, events, f, a)
    ensures Latest(events, f, a).Some?
  {
    var front := events[..|events| - 1];
    if Dropped(ttl, front, f, a) {
      DroppedHasRecord(ttl, front, f, a);
    }
  }

  // ---- one file at a time ----

  /** What an event does to the entries of file `f`. */
  function Step(ttl: Time, ps: seq<PeerInfo>, e: Event, f: string): seq<PeerInfo> {
    match e
    case Register(f', peer, at) => if f' == f then Upsert(ps, Stamped(peer, at)) else ps
    case Unregister(f', agentId, _) => if f' == f then Without(ps, agentId) else ps
    case UnregisterAll(agentId, _) => Without(ps, agentId)
    case Read(f', at) => if f' == f then Live(ps, ttl, at) else ps
  }

  lemma ApplyIsStep(ttl: Time, store: Store, e: Event, f: string)
    ensures Entries(Apply(ttl, store, e), f) == Step(ttl, Entries(store, f), e, f)
  {
  }

  function Evolve(ttl: Time, events: seq<Event>, f: string): seq<PeerInfo> {
    if events == [] then [] else Step(ttl, Evolve(ttl, events[..|events| - 1], f), events[|events| - 1], f)
  }

  lemma EvolveSnoc(ttl: Time, front: seq<Event>, e: Event, f: string)
    ensures Evolve(ttl, front + [e], f) == Step(ttl, Evolve(ttl, front, f), e, f)
  {
  }

  lemma {:induction false} ReplayIsEvolve(ttl: Time, events: seq<Event>, f: string)
    ensures Entries(Replay(ttl, events), f) == Evolve(ttl, events, f)
  {
    if events != [] {
      var front := events[..|events| - 1];
      ReplayIsEvolve(ttl, front, f);
      ApplyIsStep(ttl, Replay(ttl, front), events[|events| - 1], f);
    }
  }

  lemma StepDistinct(ttl: Time, ps: seq<PeerInfo>, e: Event, f: string)
    requires DistinctIds(ps)
    ensures DistinctIds(Step(ttl, ps, e, f))
  {
    match e {
      case Register(_, peer, at) => UpsertMembers(ps, Stamped(peer, at));
      case Unregister(_, agentId, _) => FilterDistinct(ps, (p: PeerInfo) => p.agentId != agentId);
      case UnregisterAll(agentId, _) => FilterDistinct(ps, (p: PeerInfo) => p.agentId != agentId);
      case Read(_, at) => FilterDistinct(ps, (p: PeerInfo) => !IsExpired(p, ttl, at));
    }
  }

  lemma {:induction false} EvolveDistinct(ttl: Time, events: seq<Event>, f: string)
    ensures DistinctIds(Evolve(ttl, events, f))
  {
    if events != [] {
      var front := events[..|events| - 1];
      EvolveDistinct(ttl, front, f);
      StepDistinct(ttl, Evolve(ttl, front, f), events[|events| - 1], f);
    }
  }

  lemma {:induction false} NoEmptyKeys(ttl: Time, events: seq<Event>, f: string)
    ensures f in Replay(ttl, events) ==> Replay(ttl, events)[f] != []
  {
    if events != [] {
      NoEmptyKeys(ttl, events[..|events| - 1], f);
    }
  }

  /** In every reachable store no file is without entries and no agent is listed twice for a file. */
  lemma ReachableWellFormed(ttl: Time, events: seq<Event>)
    ensures WellFormed(Replay(ttl, events))
  {
    forall f | f in Replay(ttl, events)
      ensures Replay(ttl, events)[f] != [] && DistinctIds(Replay(ttl, events)[f])
    {
      NoEmptyKeys(ttl, events, f);
      ReplayIsEvolve(ttl, events, f);
      EvolveDistinct(ttl, events, f);
    }
  }

  // ---- the entries of a file, exactly ----

  lemma EntriesAfter(ttl: Time, front: seq<Event>, e: Event, f: string)
    requires forall p :: p in Evolve(ttl, front, f) <==> Stands(ttl, front, f, p)
    ensures forall p :: p in Step(ttl, Evolve(ttl, front, f), e, f) <==> Stands(ttl, front + [e], f, p)
  {
    var events, ps := front + [e], Evolve(ttl, front, f);
    assert events[..|front|] == front;
    EvolveDistinct(ttl, front, f);
    if e.Register? {
      UpsertMembers(ps, Stamped(e.peer, e.at));
    }
    forall p
      ensures p in Step(ttl, ps, e, f) <==> Stands(ttl, events, f, p)
    {
      assert p in ps <==> Stands(ttl, front, f, p);
    }
  }

  /** Whatever the clock does, the entries of a file are the standing announcements that no read has dropped. */
  lemma {:induction false} EntriesExact(ttl: Time, events: seq<Event>, f: string)
    ensures forall p :: p in Evolve(ttl, events, f) <==> Stands(ttl, events, f, p)
  {
    if events != [] {
      var front, e := events[..|events| - 1], events[|events| - 1];
      EntriesExact(ttl, front, f);
      EntriesAfter(ttl, front, e, f);
      assert front + [e] == events;
    }
  }

  /** A read answers the announcements that stand, were not dropped and are at most `ttl` old, one for each agent. */
  lemma AnswerExact(ttl: Time, events: seq<Event>, f: string, now: Time)
    ensures forall p :: p in Answer(ttl, events, f, now) <==>
              Stands(ttl, events, f, p) && now - p.registeredAt <= ttl
    ensures DistinctIds(Answer(ttl, events, f, now))
  {
    ReplayIsEvolve(ttl, events, f);
    EntriesExact(ttl, events, f);
    EvolveDistinct(ttl, events, f);
    FilterDistinct(Evolve(ttl, events, f), (p: PeerInfo) => !IsExpired(p, ttl, now));
  }

  // ---- when an answer is the history's ----

  /** The answer is what the history says: the announcements that stand and are at most `ttl` old. */
  ghost predicate AnswersHistory(ttl: Time, events: seq<Event>, f: string, now: Time) {
    forall p :: p in Answer(ttl, events, f, now) <==>
      Latest(events, f, p.agentId) == Some(p) && now - p.registeredAt <= ttl
  }

  /** Every agent whose record a read dropped would be stale at `now` as well. */
  ghost predicate DropsLapsed(ttl: Time, events: seq<Event>, f: string, now: Time) {
    forall a :: Dropped(ttl, events, f, a) ==> Stale(ttl, events, f, a, now)
  }

  /** Whatever the clock did, an answer is the history's exactly if no read dropped a record that is live at `now`. */
  lemma AnswersHistoryIff(ttl: Time, events: seq<Event>, f: string, now: Time)
    ensures AnswersHistory(ttl, events, f, now) <==> DropsLapsed(ttl, events, f, now)
  {
    AnswerExact(ttl, events, f, now);
    if AnswersHistory(ttl, events, f, now) {
      forall a | Dropped(ttl, events, f, a)
        ensures Stale(ttl, events, f, a, now)
      {
        DroppedHasRecord(ttl, events, f, a);
        var p := Latest(events, f, a).value;
        assert p !in Answer(ttl, events, f, now);
      }
    }
  }

  /** No read of `f` is later than `now`. Nothing is asked of the times of announcements. */
  predicate ReadsBefore(events: seq<Event>, f: string, now: Time) {
    forall i :: 0 <= i < |events| && events[i].Read? && events[i].fileHash == f ==> events[i].at <= now
  }

  lemma {:induction false} DroppedIsStale(ttl: Time, events: seq<Event>, f: string, a: string, now: Time)
    requires ReadsBefore(events, f, now) && Dropped(ttl, events, f, a)
    ensures Stale(ttl, events, f, a, now)
  {
    var front := events[..|events| - 1];
    assert forall i :: 0 <= i < |front| ==> front[i] == events[i];
    if Dropped(ttl, front, f, a) {
      DroppedIsStale(ttl, front, f, a, now);
    }
  }

  /** The entries of `f` are announcements the history still stands by; missing ones have expired. */
  ghost predicate Refines(ttl: Time, events: seq<Event>, f: string, now: Time) {
    && (forall p :: p in Evolve(ttl, events, f) ==> Latest(events, f, p.agentId) == Some(p))
    && (forall a :: Latest(events, f, a).Some? && Latest(events, f, a).value !in Evolve(ttl, events, f)
          ==> IsExpired(Latest(events, f, a).value, ttl, now))
  }

  lemma RunRefines(ttl: Time, events: seq<Event>, f: string, now: Time)
    requires ReadsBefore(events, f, now)
    ensures Refines(ttl, events, f, now)
  {
    EntriesExact(ttl, events, f);
    forall a | Latest(events, f, a).Some? && Latest(events, f, a).value !in Evolve(ttl, events, f)
      ensures IsExpired(Latest(events, f, a).value, ttl, now)
    {
      DroppedIsStale(ttl, events, f, a, now);
    }
  }

  /** A read no earlier than those before it answers the announcements that stand and are live, one for each agent. */
  lemma AnswerIsHistory(ttl: Time, events: seq<Event>, f: string, now: Time)
    requires ReadsBefore(events, f, now)
    ensures AnswersHistory(ttl, events, f, now)
    ensures DistinctIds(Answer(ttl, events, f, now))
  {
    AnswerExact(ttl, events, f, now);
    forall a | Dropped(ttl, events, f, a)
      ensures Stale(ttl, events, f, a, now)
    {
      DroppedIsStale(ttl, events, f, a, now);
    }
    AnswersHistoryIff(ttl, events, f, now);
  }

  // ---- pruning is unobservable ----

  /** The announcements of a run, its reads left out. */
  function Announcements(events: seq<Event>): seq<Event> {
    if events == [] then []
    else
      var front := Announcements(events[..|events| - 1]);
      if events[|events| - 1].Read? then front else front + [events[|events| - 1]]
  }

  lemma {:induction false} LatestIgnoresReads(events: seq<Event>, f: string, a: string)
    ensures Latest(Announcements(events), f, a) == Latest(events, f, a)
  {
    if events != [] {
      var front := events[..|events| - 1];
      LatestIgnoresReads(front, f, a);
      if !events[|events| - 1].Read? {
        assert Announcements(events)[..|Announcements(events)| - 1] == Announcements(front);
      }
    }
  }

  lemma {:induction false} DistinctMultiset(ps: seq<PeerInfo>, p: PeerInfo)
    requires DistinctIds(ps)
    ensures multiset(ps)[p] == if p in ps then 1 else 0
  {
    if ps != [] {
      var front, last := ps[..|ps| - 1], ps[|ps| - 1];
      assert ps == front + [last];
      DistinctMultiset(front, p);
      assert last !in front;
    }
  }

  /** The reads of both runs have dropped the same agents among those whose record is live at `now`. */
  ghost predicate SameDrops(ttl: Time, events: seq<Event>, events': seq<Event>, f: string, now: Time) {
    forall a :: Latest(events, f, a).Some? && !Stale(ttl, events, f, a, now) ==>
      (Dropped(ttl, events, f, a) <==> Dropped(ttl, events', f, a))
  }

  lemma SameLatest(events: seq<Event>, events': seq<Event>, f: string, a: string)
    requires Announcements(events) == Announcements(events')
    ensures Latest(events, f, a) == Latest(events', f, a)
  {
    LatestIgnoresReads(events, f, a);
    LatestIgnoresReads(events', f, a);
  }

  /** Two runs with the same announcements answer with the same records exactly if they dropped the same live agents. */
  lemma SameAnswersIff(ttl: Time, events: seq<Event>, events': seq<Event>, f: string, now: Time)
    requires Announcements(events) == Announcements(events')
    ensures multiset(Answer(ttl, events, f, now)) == multiset(Answer(ttl, events', f, now))
            <==> SameDrops(ttl, events, events', f, now)
  {
    AnswerExact(ttl, events, f, now);
    AnswerExact(ttl, events', f, now);
    var here, there := Answer(ttl, events, f, now), Answer(ttl, events', f, now);
    if multiset(here) == multiset(there) {
      forall a | Latest(events, f, a).Some? && !Stale(ttl, events, f, a, now)
        ensures Dropped(ttl, events, f, a) <==> Dropped(ttl, events', f, a)
      {
        SameLatest(events, events', f, a);
        var p := Latest(events, f, a).value;
        assert p in here <==> p in there by {
          assert p in here <==> p in multiset(here);
          assert p in there <==> p in multiset(there);
        }
      }
    }
    if SameDrops(ttl, events, events', f, now) {
      forall p: PeerInfo
        ensures multiset(here)[p] == multiset(there)[p]
      {
        SameLatest(events, events', f, p.agentId);
        DistinctMultiset(here, p);
        DistinctMultiset(there, p);
      }
    }
  }

  /**
   Inserting or removing reads never changes what a later read answers: two runs
   with the same announcements, read for the last time at `now`, answer alike.
   */
  lemma ReadsUnobservable(ttl: Time, events: seq<Event>, events': seq<Event>, f: string, now: Time)
    requires ReadsBefore(events, f, now) && ReadsBefore(events', f, now)
    requires Announcements(events) == Announcements(events')
    ensures multiset(Answer(ttl, events, f, now)) == multiset(Answer(ttl, events', f, now))
  {
    forall a | Latest(events, f, a).Some? && !Stale(ttl, events, f, a, now)
      ensures Dropped(ttl, events, f, a) <==> Dropped(ttl, events', f, a)
    {
      SameLatest(events, events', f, a);
      if Dropped(ttl, events, f, a) {
        DroppedIsStale(ttl, events, f, a, now);
      }
      if Dropped(ttl, events', f, a) {
        DroppedIsStale(ttl, events', f, a, now);
      }
    }
    SameAnswersIff(ttl, events, events', f, now);
  }
}

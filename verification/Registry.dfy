/**
 The tracker's registry: for each file, the peers that announced it, in the order
 a Python dictionary keeps them, with expired peers pruned when they are read.
 */
module Registry {
  import opened Bytes

  type Time = int

  datatype PeerInfo = PeerInfo(agentId: string, host: string, port: int, registeredAt: Time)

  /** File hash to presence records, one per agent, oldest entry first. */
  type Store = map<string, seq<PeerInfo>>

  predicate IsExpired(p: PeerInfo, ttl: Time, now: Time) { now - p.registeredAt > ttl }

  // ---- the dictionary operations ----

  function Filter(ps: seq<PeerInfo>, keep: PeerInfo -> bool): (r: seq<PeerInfo>)
    ensures forall p :: p in r <==> p in ps && keep(p)
  {
    if ps == [] then []
    else
      var front := Filter(ps[..|ps| - 1], keep);
      var last := ps[|ps| - 1];
      assert ps == ps[..|ps| - 1] + [last];
      if keep(last) then front + [last] else front
  }

  function Without(ps: seq<PeerInfo>, agentId: string): seq<PeerInfo> {
    Filter(ps, (p: PeerInfo) => p.agentId != agentId)
  }

  function Live(ps: seq<PeerInfo>, ttl: Time, now: Time): seq<PeerInfo> {
    Filter(ps, (p: PeerInfo) => !IsExpired(p, ttl, now))
  }

  function Ids(ps: seq<PeerInfo>): set<string> { set p | p in ps :: p.agentId }

  function Replace(ps: seq<PeerInfo>, p: PeerInfo): seq<PeerInfo> {
    if ps == [] then []
    else
      var last := ps[|ps| - 1];
      Replace(ps[..|ps| - 1], p) + [if last.agentId == p.agentId then p else last]
  }

  /** Assignment by key: an existing entry keeps its place, a new one goes last. */
  function Upsert(ps: seq<PeerInfo>, p: PeerInfo): seq<PeerInfo> {
    if p.agentId in Ids(ps) then Replace(ps, p) else ps + [p]
  }

  /** Entries of a file, or none. */
  function Entries(store: Store, fileHash: string): seq<PeerInfo> {
    if fileHash in store then store[fileHash] else []
  }

  /** Stores the entries of a file; a file with none has no key. */
  function WithEntries(store: Store, fileHash: string, ps: seq<PeerInfo>): Store {
    if ps == [] then store - {fileHash} else store[fileHash := ps]
  }

  predicate DistinctIds(ps: seq<PeerInfo>) {
    forall i, j :: 0 <= i < j < |ps| ==> ps[i].agentId != ps[j].agentId
  }

  /** Every key has an entry, and every agent at most one entry per key. */
  predicate WellFormed(store: Store) {
    forall f :: f in store ==> store[f] != [] && DistinctIds(store[f])
  }

  function Registered(store: Store, fileHash: string, p: PeerInfo): Store {
    store[fileHash := Upsert(Entries(store, fileHash), p)]
  }

  function Unregistered(store: Store, fileHash: string, agentId: string): Store {
    WithEntries(store, fileHash, Without(Entries(store, fileHash), agentId))
  }

  function UnregisteredAll(store: Store, agentId: string): Store {
    map f | f in store && Without(store[f], agentId) != [] :: Without(store[f], agentId)
  }

  function Pruned(store: Store, fileHash: string, ttl: Time, now: Time): Store {
    WithEntries(store, fileHash, Live(Entries(store, fileHash), ttl, now))
  }

  // ---- filters ----

  lemma {:induction false} FilterCongruent(ps: seq<PeerInfo>, keep: PeerInfo -> bool, keep': PeerInfo -> bool)
    requires forall p :: p in ps ==> keep(p) == keep'(p)
    ensures Filter(ps, keep) == Filter(ps, keep')
  {
    if ps != [] {
      FilterCongruent(ps[..|ps| - 1], keep, keep');
    }
  }

  lemma {:induction false} FilterTwice(ps: seq<PeerInfo>, first: PeerInfo -> bool, second: PeerInfo -> bool,
      both: PeerInfo -> bool)
    requires forall p :: p in ps ==> (both(p) <==> first(p) && second(p))
    ensures Filter(Filter(ps, first), second) == Filter(ps, both)
  {
    if ps != [] {
      var front := Filter(ps[..|ps| - 1], first);
      var last := ps[|ps| - 1];
      FilterTwice(ps[..|ps| - 1], first, second, both);
      assert (front + [last])[..|front|] == front;
    }
  }

  lemma {:induction false} FilterAll(ps: seq<PeerInfo>, keep: PeerInfo -> bool)
    requires forall p :: p in ps ==> keep(p)
    ensures Filter(ps, keep) == ps
  {
    if ps != [] {
      FilterAll(ps[..|ps| - 1], keep);
    }
  }

  lemma {:induction false} FilterDistinct(ps: seq<PeerInfo>, keep: PeerInfo -> bool)
    requires DistinctIds(ps)
    ensures DistinctIds(Filter(ps, keep))
  {
    if ps != [] {
      var front := ps[..|ps| - 1];
      FilterDistinct(front, keep);
      var kept := Filter(front, keep);
      forall i | 0 <= i < |kept|
        ensures kept[i].agentId != ps[|ps| - 1].agentId
      {
        assert kept[i] in front;
      }
    }
  }

  lemma FilterSnoc(ps: seq<PeerInfo>, p: PeerInfo, keep: PeerInfo -> bool)
    ensures Filter(ps + [p], keep) == if keep(p) then Filter(ps, keep) + [p] else Filter(ps, keep)
  {
  }

  lemma FilterPrefix(ps: seq<PeerInfo>, i: nat, keep: PeerInfo -> bool)
    requires i < |ps|
    ensures Filter(ps[..i + 1], keep) == if keep(ps[i]) then Filter(ps[..i], keep) + [ps[i]] else Filter(ps[..i], keep)
  {
    assert ps[..i + 1] == ps[..i] + [ps[i]];
    FilterSnoc(ps[..i], ps[i], keep);
  }

  lemma {:induction false} ReplaceAt(ps: seq<PeerInfo>, p: PeerInfo)
    ensures |Replace(ps, p)| == |ps|
    ensures forall i :: 0 <= i < |ps| ==> Replace(ps, p)[i] == if ps[i].agentId == p.agentId then p else ps[i]
  {
    if ps != [] {
      ReplaceAt(ps[..|ps| - 1], p);
    }
  }

  lemma UpsertMembers(ps: seq<PeerInfo>, p: PeerInfo)
    requires DistinctIds(ps)
    ensures DistinctIds(Upsert(ps, p))
    ensures forall q :: q in Upsert(ps, p) <==> q == p || (q in ps && q.agentId != p.agentId)
  {
    if p.agentId in Ids(ps) {
      ReplaceAt(ps, p);
      var next := Replace(ps, p);
      forall q
        ensures q in next <==> q == p || (q in ps && q.agentId != p.agentId)
      {
        if q == p {
          var held :| held in ps && held.agentId == p.agentId;
          var i :| 0 <= i < |ps| && ps[i] == held;
          assert next[i] == p;
        } else if q in ps && q.agentId != p.agentId {
          var i :| 0 <= i < |ps| && ps[i] == q;
          assert next[i] == q;
        }
      }
    }
  }

  // ---- leaving every file ----

  /** An agent has left every file but those still to do. */
  function UnregisteredExcept(store: Store, agentId: string, todo: set<string>): Store {
    map f | f in store && (f in todo || Without(store[f], agentId) != []) ::
      if f in todo then store[f] else Without(store[f], agentId)
  }

  lemma UnregisteredNowhere(store: Store, agentId: string)
    ensures UnregisteredExcept(store, agentId, store.Keys) == store
  {
  }

  lemma UnregisteredEverywhere(store: Store, agentId: string)
    ensures UnregisteredExcept(store, agentId, {}) == UnregisteredAll(store, agentId)
  {
  }

  lemma UnregisteredOnceMore(store: Store, agentId: string, todo: set<string>, f: string)
    requires f in todo && todo <= store.Keys
    ensures Unregistered(UnregisteredExcept(store, agentId, todo), f, agentId)
            == UnregisteredExcept(store, agentId, todo - {f})
  {
  }

  // ---- the registry ----

  class Registry {
    const peerTtl: Time
    var store: Store

    predicate Valid()
      reads this
    {
      WellFormed(store)
    }

    constructor (peerTtl: Time)
      ensures this.peerTtl == peerTtl && store == map[] && Valid()
    {
      this.peerTtl := peerTtl;
      store := map[];
    }

    /** Adds or refreshes a peer's presence, stamped with the current time. */
    method Register(fileHash: string, peer: PeerInfo, clock: Time)
      requires Valid()
      modifies this
      ensures Valid()
      ensures store == Registered(old(store), fileHash, PeerInfo(peer.agentId, peer.host, peer.port, clock))
    {
      UpsertMembers(Entries(store, fileHash), PeerInfo(peer.agentId, peer.host, peer.port, clock));
      if fileHash !in store {
        store := store[fileHash := []];
      }
      store := store[fileHash := Upsert(store[fileHash], PeerInfo(peer.agentId, peer.host, peer.port, clock))];
    }

    method Unregister(fileHash: string, agentId: string)
      requires Valid()
      modifies this
      ensures Valid()
      ensures store == Unregistered(old(store), fileHash, agentId)
    {
      FilterDistinct(Entries(store, fileHash), (p: PeerInfo) => p.agentId != agentId);
      if fileHash in store {
        store := store[fileHash := Without(store[fileHash], agentId)];
        if store[fileHash] == [] {
          store := store - {fileHash};
        }
      } else {
        assert store - {fileHash} == store;
      }
    }

    /** Removes a peer from every file, over a snapshot of the keys. */
    method UnregisterAll(agentId: string)
      requires Valid()
      modifies this
      ensures Valid()
      ensures store == UnregisteredAll(old(store), agentId)
    {
      var snapshot := store.Keys;
      UnregisteredNowhere(store, agentId);
      while snapshot != {}
        invariant Valid() && snapshot <= old(store).Keys
        invariant store == UnregisteredExcept(old(store), agentId, snapshot)
        decreases snapshot
      {
        var f :| f in snapshot;
        UnregisteredOnceMore(old(store), agentId, snapshot, f);
        snapshot := snapshot - {f};
        Unregister(f, agentId);
      }
      UnregisteredEverywhere(old(store), agentId);
    }

    /** The live peers of a file in order; stale ones are dropped. A missing or zero `now` means the current time. */
    method GetPeers(fileHash: string, now: Option<Time>, clock: Time) returns (live: seq<PeerInfo>)
      requires Valid()
      modifies this
      ensures Valid()
      ensures var at := if now == None || now == Some(0) then clock else now.value;
              && live == Live(Entries(old(store), fileHash), peerTtl, at)
              && store == Pruned(old(store), fileHash, peerTtl, at)
    {
      if fileHash !in store {
        assert store - {fileHash} == store;
        return [];
      }
      var at := if now == None || now == Some(0) then clock else now.value;
      ghost var ps := store[fileHash];
      var expired;
      live, expired := Partition(store[fileHash], at);
      Drop(fileHash, expired);
      DropExpired(ps, expired, peerTtl, at);
    }

    /** The first loop of a read: the live records, and the agents whose record is stale. */
    method Partition(ps: seq<PeerInfo>, at: Time) returns (live: seq<PeerInfo>, expired: seq<string>)
      ensures live == Live(ps, peerTtl, at)
      ensures forall a :: a in expired <==>
                exists k :: 0 <= k < |ps| && IsExpired(ps[k], peerTtl, at) && ps[k].agentId == a
    {
      live, expired := [], [];
      for i := 0 to |ps|
        invariant live == Live(ps[..i], peerTtl, at)
        invariant forall a :: a in expired <==>
                    exists k :: 0 <= k < i && IsExpired(ps[k], peerTtl, at) && ps[k].agentId == a
      {
        LivePrefix(ps, i, peerTtl, at);
        if IsExpired(ps[i], peerTtl, at) {
          expired := expired + [ps[i].agentId];
        } else {
          live := live + [ps[i]];
        }
      }
      assert ps[..|ps|] == ps;
    }

    /** The second loop of a read: unregisters the given agents from one file. */
    method Drop(fileHash: string, agents: seq<string>)
      requires Valid() && fileHash in store
      modifies this
      ensures Valid()
      ensures store == WithEntries(old(store), fileHash, Excluding(old(store)[fileHash], agents))
    {
      ghost var ps := store[fileHash];
      ExcludingNobody(ps);
      for i := 0 to |agents|
        invariant Valid() && store == WithEntries(old(store), fileHash, Excluding(ps, agents[..i]))
      {
        ExcludingOneMore(ps, agents, i);
        assert Entries(store, fileHash) == Excluding(ps, agents[..i]);
        Unregister(fileHash, agents[i]);
      }
      assert agents[..|agents|] == agents;
    }
  }

  lemma LivePrefix(ps: seq<PeerInfo>, i: nat, ttl: Time, now: Time)
    requires i < |ps|
    ensures Live(ps[..i + 1], ttl, now) == Live(ps[..i], ttl, now) + if IsExpired(ps[i], ttl, now) then [] else [ps[i]]
  {
    FilterPrefix(ps, i, (p: PeerInfo) => !IsExpired(p, ttl, now));
  }

  function Excluding(ps: seq<PeerInfo>, agents: seq<string>): seq<PeerInfo> {
    Filter(ps, (p: PeerInfo) => p.agentId !in agents)
  }

  lemma ExcludingNobody(ps: seq<PeerInfo>)
    ensures Excluding(ps, []) == ps
  {
    FilterAll(ps, (p: PeerInfo) => p.agentId !in []);
  }

  lemma ExcludingOneMore(ps: seq<PeerInfo>, agents: seq<string>, i: nat)
    requires i < |agents|
    ensures Without(Excluding(ps, agents[..i]), agents[i]) == Excluding(ps, agents[..i + 1])
  {
    assert agents[..i + 1] == agents[..i] + [agents[i]];
    FilterTwice(ps, (p: PeerInfo) => p.agentId !in agents[..i], (p: PeerInfo) => p.agentId != agents[i],
                (p: PeerInfo) => p.agentId !in agents[..i + 1]);
  }

  lemma DropExpired(ps: seq<PeerInfo>, expired: seq<string>, ttl: Time, now: Time)
    requires DistinctIds(ps)
    requires forall a :: a in expired <==> exists k :: 0 <= k < |ps| && IsExpired(ps[k], ttl, now) && ps[k].agentId == a
    ensures Excluding(ps, expired) == Live(ps, ttl, now)
  {
    forall p | p in ps
      ensures p.agentId !in expired <==> !IsExpired(p, ttl, now)
    {
      var i :| 0 <= i < |ps| && ps[i] == p;
      assert forall k :: 0 <= k < |ps| && ps[k].agentId == p.agentId ==> k == i;
    }
    FilterCongruent(ps, (p: PeerInfo) => p.agentId !in expired, (p: PeerInfo) => !IsExpired(p, ttl, now));
  }
}

/**
 The order of an answer, which decides the peers a downloader tries. An agent
 stands in the list where it last entered it: a record that a read dropped goes to
 the end when it is renewed, one that was still held keeps its place.
 */
module RegistryOrder {
  import opened Bytes
  import opened Registry
  import opened RegistryHistory

  // ---- where an agent stands ----

  /** The list of `f` holds a record of `a`. */
  predicate Held(ttl: Time, events: seq<Event>, f: string, a: string) {
    Latest(events, f, a).Some? && !Dropped(ttl, events, f, a)
  }

  predicate Enters(ttl: Time, front: seq<Event>, e: Event, f: string, a: string) {
    e.Register? && e.fileHash == f && e.peer.agentId == a && !Held(ttl, front, f, a)
  }

  /** When `a` last entered the list of `f`, counted in announcements. */
  function Arrival(ttl: Time, events: seq<Event>, f: string, a: string): nat {
    if events == [] then 0
    else
      var front := events[..|events| - 1];
      if Enters(ttl, front, events[|events| - 1], f, a) then |Announcements(front)| else Arrival(ttl, front, f, a)
  }

  /** The records stand in the order in which their agents arrived, no two at once. */
  predicate Ordered(ps: seq<PeerInfo>, rank: string -> nat) {
    forall i, j :: 0 <= i < j < |ps| ==> rank(ps[i].agentId) < rank(ps[j].agentId)
  }

  function ArrivalOf(ttl: Time, events: seq<Event>, f: string): string -> nat {
    a => Arrival(ttl, events, f, a)
  }

  // ---- lists ordered by a rank ----

  lemma {:induction false} FilterOrdered(ps: seq<PeerInfo>, keep: PeerInfo -> bool, rank: string -> nat)
    requires Ordered(ps, rank)
    ensures Ordered(Filter(ps, keep), rank)
  {
    if ps != [] {
      var front := ps[..|ps| - 1];
      FilterOrdered(front, keep, rank);
      var kept := Filter(front, keep);
      forall i | 0 <= i < |kept|
        ensures rank(kept[i].agentId) < rank(ps[|ps| - 1].agentId)
      {
        assert kept[i] in front;
      }
    }
  }

  lemma LastRanksHighest(ps: seq<PeerInfo>, rank: string -> nat, p: PeerInfo)
    requires Ordered(ps, rank) && p in ps
    ensures var last := ps[|ps| - 1];
            && (p == last || rank(p.agentId) < rank(last.agentId))
            && (p in ps[..|ps| - 1] <==> p != last)
  {
    var i :| 0 <= i < |ps| && ps[i] == p;
    if i < |ps| - 1 {
      assert ps[..|ps| - 1][i] == p;
    }
  }

  /** A list is determined by its members and the order they stand in. */
  lemma {:induction false} OrderedUnique(ps: seq<PeerInfo>, qs: seq<PeerInfo>, rank: string -> nat)
    requires Ordered(ps, rank) && Ordered(qs, rank)
    requires forall p :: p in ps <==> p in qs
    ensures ps == qs
  {
    assert ps != [] ==> ps[0] in qs;
    assert qs != [] ==> qs[0] in ps;
    if ps != [] {
      var front, front' := ps[..|ps| - 1], qs[..|qs| - 1];
      LastRanksHighest(ps, rank, qs[|qs| - 1]);
      LastRanksHighest(qs, rank, ps[|ps| - 1]);
      forall p
        ensures p in front <==> p in front'
      {
        if p in ps {
          LastRanksHighest(ps, rank, p);
          LastRanksHighest(qs, rank, p);
        }
      }
      OrderedUnique(front, front', rank);
      assert ps == front + [ps[|ps| - 1]];
    }
  }

  /** The two ranks order the agents of the list alike. */
  predicate RanksAgree(ps: seq<PeerInfo>, rank: string -> nat, rank': string -> nat) {
    forall p, q :: p in ps && q in ps ==>
      (rank(p.agentId) < rank(q.agentId) <==> rank'(p.agentId) < rank'(q.agentId))
  }

  lemma RanksAgreeOnIds(ps: seq<PeerInfo>, rank: string -> nat, rank': string -> nat)
    ensures RanksAgree(ps, rank, rank') <==>
            forall a, b :: a in Ids(ps) && b in Ids(ps) ==> (rank(a) < rank(b) <==> rank'(a) < rank'(b))
  {
    if RanksAgree(ps, rank, rank') {
      forall a, b | a in Ids(ps) && b in Ids(ps)
        ensures rank(a) < rank(b) <==> rank'(a) < rank'(b)
      {
        var p :| p in ps && p.agentId == a;
        var q :| q in ps && q.agentId == b;
      }
    }
  }

  /** Lists of the same members, each ordered by a rank of its own, are equal exactly if the ranks agree on them. */
  lemma EqualIffRanksAgree(ps: seq<PeerInfo>, qs: seq<PeerInfo>, rank: string -> nat, rank': string -> nat)
    requires Ordered(ps, rank) && Ordered(qs, rank')
    requires forall p :: p in ps <==> p in qs
    ensures ps == qs <==> RanksAgree(ps, rank, rank')
  {
    if RanksAgree(ps, rank, rank') {
      forall i, j | 0 <= i < j < |qs|
        ensures rank(qs[i].agentId) < rank(qs[j].agentId)
      {
        assert qs[i] in ps && qs[j] in ps;
      }
      OrderedUnique(ps, qs, rank);
    }
    if ps == qs {
      forall p, q | p in ps && q in ps
        ensures rank(p.agentId) < rank(q.agentId) <==> rank'(p.agentId) < rank'(q.agentId)
      {
        var i :| 0 <= i < |ps| && ps[i] == p;
        var j :| 0 <= j < |ps| && ps[j] == q;
        assert i < j || i == j || j < i;
      }
    }
  }

  // ---- the entries stand in order of arrival ----

  lemma {:induction false} ArrivalIsPast(ttl: Time, events: seq<Event>, f: string, a: string)
    requires Latest(events, f, a).Some?
    ensures Arrival(ttl, events, f, a) < |Announcements(events)|
  {
    var front, e := events[..|events| - 1], events[|events| - 1];
    if Latest(front, f, a).Some? {
      ArrivalIsPast(ttl, front, f, a);
    }
  }

  lemma {:induction false} EntriesOrdered(ttl: Time, events: seq<Event>, f: string)
    ensures Ordered(Evolve(ttl, events, f), ArrivalOf(ttl, events, f))
  {
    if events != [] {
      var front, e := events[..|events| - 1], events[|events| - 1];
      var ps := Evolve(ttl, front, f);
      EntriesOrdered(ttl, front, f);
      match e {
        case Register(f', peer, at) =>
          if f' == f {
            RegisterOrdered(ttl, front, e, f);
            assert front + [e] == events;
          }
        case Unregister(_, a, _) => FilterOrdered(ps, (p: PeerInfo) => p.agentId != a, ArrivalOf(ttl, front, f));
        case UnregisterAll(a, _) => FilterOrdered(ps, (p: PeerInfo) => p.agentId != a, ArrivalOf(ttl, front, f));
        case Read(_, at) => FilterOrdered(ps, (p: PeerInfo) => !IsExpired(p, ttl, at), ArrivalOf(ttl, front, f));
      }
    }
  }

  lemma HeldIsListed(ttl: Time, events: seq<Event>, f: string, a: string)
    ensures Held(ttl, events, f, a) <==> a in Ids(Evolve(ttl, events, f))
  {
    EntriesExact(ttl, events, f);
    if Held(ttl, events, f, a) {
      assert Latest(events, f, a).value in Evolve(ttl, events, f);
    }
  }

  lemma RegisterOrdered(ttl: Time, front: seq<Event>, e: Event, f: string)
    requires Ordered(Evolve(ttl, front, f), ArrivalOf(ttl, front, f))
    requires e.Register? && e.fileHash == f
    ensures Ordered(Step(ttl, Evolve(ttl, front, f), e, f), ArrivalOf(ttl, front + [e], f))
  {
    var events, ps, p := front + [e], Evolve(ttl, front, f), Stamped(e.peer, e.at);
    assert events[..|front|] == front;
    HeldIsListed(ttl, front, f, p.agentId);
    if p.agentId in Ids(ps) {
      ReplaceAt(ps, p);
    } else {
      EntriesExact(ttl, front, f);
      forall i | 0 <= i < |ps|
        ensures ps[i].agentId != p.agentId
        ensures Arrival(ttl, front, f, ps[i].agentId) < |Announcements(front)|
      {
        assert ps[i] in ps;
        ArrivalIsPast(ttl, front, f, ps[i].agentId);
      }
    }
  }

  /**
   A read, as a list and whatever the clock did: the records that stand, were not
   dropped and are live, in the order in which their agents arrived. No other list
   has these members in this order.
   */
  lemma AnswerIsOrdered(ttl: Time, events: seq<Event>, f: string, now: Time, answer: seq<PeerInfo>)
    ensures answer == Answer(ttl, events, f, now) <==>
            && (forall p :: p in answer <==> Stands(ttl, events, f, p) && now - p.registeredAt <= ttl)
            && Ordered(answer, ArrivalOf(ttl, events, f))
  {
    AnswerExact(ttl, events, f, now);
    AnswerOrdered(ttl, events, f, now);
    if (forall p :: p in answer <==> Stands(ttl, events, f, p) && now - p.registeredAt <= ttl)
       && Ordered(answer, ArrivalOf(ttl, events, f)) {
      OrderedUnique(answer, Answer(ttl, events, f, now), ArrivalOf(ttl, events, f));
    }
  }

  lemma AnswerOrdered(ttl: Time, events: seq<Event>, f: string, now: Time)
    ensures Ordered(Answer(ttl, events, f, now), ArrivalOf(ttl, events, f))
  {
    ReplayIsEvolve(ttl, events, f);
    EntriesOrdered(ttl, events, f);
    FilterOrdered(Evolve(ttl, events, f), (p: PeerInfo) => !IsExpired(p, ttl, now), ArrivalOf(ttl, events, f));
  }

  // ---- when reads change the order ----

  /** The list holds a record of `a` that is live at `now`. */
  predicate HeldLive(ttl: Time, events: seq<Event>, f: string, a: string, now: Time) {
    Held(ttl, events, f, a) && !Stale(ttl, events, f, a, now)
  }

  /** Every two agents with a held and live record arrived in the same order in both runs. */
  ghost predicate SameArrivals(ttl: Time, events: seq<Event>, events': seq<Event>, f: string, now: Time) {
    forall a, b :: HeldLive(ttl, events, f, a, now) && HeldLive(ttl, events, f, b, now) ==>
      (Arrival(ttl, events, f, a) < Arrival(ttl, events, f, b) <==>
       Arrival(ttl, events', f, a) < Arrival(ttl, events', f, b))
  }

  lemma HeldLiveIsListed(ttl: Time, events: seq<Event>, f: string, a: string, now: Time)
    ensures HeldLive(ttl, events, f, a, now) <==> a in Ids(Answer(ttl, events, f, now))
  {
    AnswerExact(ttl, events, f, now);
    if HeldLive(ttl, events, f, a, now) {
      assert Latest(events, f, a).value in Answer(ttl, events, f, now);
    }
  }

  lemma SameArrivalsRank(ttl: Time, events: seq<Event>, events': seq<Event>, f: string, now: Time)
    ensures SameArrivals(ttl, events, events', f, now) <==>
            RanksAgree(Answer(ttl, events, f, now), ArrivalOf(ttl, events, f), ArrivalOf(ttl, events', f))
  {
    forall a
      ensures HeldLive(ttl, events, f, a, now) <==> a in Ids(Answer(ttl, events, f, now))
    {
      HeldLiveIsListed(ttl, events, f, a, now);
    }
    RanksAgreeOnIds(Answer(ttl, events, f, now), ArrivalOf(ttl, events, f), ArrivalOf(ttl, events', f));
  }

  /**
   Two runs with the same announcements, whatever their clocks did, answer with the
   same list exactly if they dropped the same live agents and every two agents that
   are held and live arrived in the same order.
   */
  lemma SameListIff(ttl: Time, events: seq<Event>, events': seq<Event>, f: string, now: Time)
    requires Announcements(events) == Announcements(events')
    ensures Answer(ttl, events, f, now) == Answer(ttl, events', f, now)
            <==> SameDrops(ttl, events, events', f, now) && SameArrivals(ttl, events, events', f, now)
  {
    var here, there := Answer(ttl, events, f, now), Answer(ttl, events', f, now);
    AnswerOrdered(ttl, events, f, now);
    AnswerOrdered(ttl, events', f, now);
    SameAnswersIff(ttl, events, events', f, now);
    SameArrivalsRank(ttl, events, events', f, now);
    if multiset(here) == multiset(there) {
      forall p
        ensures p in here <==> p in there
      {
        assert p in here <==> p in multiset(here);
        assert p in there <==> p in multiset(there);
      }
      EqualIffRanksAgree(here, there, ArrivalOf(ttl, events, f), ArrivalOf(ttl, events', f));
    }
  }

  /** With no read later than `now`, the order of arrival alone decides. */
  lemma SameListIfReadBefore(ttl: Time, events: seq<Event>, events': seq<Event>, f: string, now: Time)
    requires Announcements(events) == Announcements(events')
    requires ReadsBefore(events, f, now) && ReadsBefore(events', f, now)
    ensures Answer(ttl, events, f, now) == Answer(ttl, events', f, now) <==> SameArrivals(ttl, events, events', f, now)
  {
    ReadsUnobservable(ttl, events, events', f, now);
    SameAnswersIff(ttl, events, events', f, now);
    SameListIff(ttl, events, events', f, now);
  }

  // ---- agents that renew in time ----

  /** No agent announces `f` again after a read dropped its record. */
  predicate RenewsInTime(ttl: Time, events: seq<Event>, f: string) {
    forall i :: 0 <= i < |events| && events[i].Register? && events[i].fileHash == f ==>
      !Dropped(ttl, events[..i], f, events[i].peer.agentId)
  }

  lemma RenewsInTimeFront(ttl: Time, events: seq<Event>, f: string)
    requires events != [] && RenewsInTime(ttl, events, f)
    ensures RenewsInTime(ttl, events[..|events| - 1], f)
  {
    var front := events[..|events| - 1];
    forall i | 0 <= i < |front| && front[i].Register? && front[i].fileHash == f
      ensures !Dropped(ttl, front[..i], f, front[i].peer.agentId)
    {
      assert front[i] == events[i] && front[..i] == events[..i];
    }
  }

  lemma {:induction false} AnnouncementsTwice(events: seq<Event>)
    ensures Announcements(Announcements(events)) == Announcements(events)
  {
    if events != [] {
      var front := events[..|events| - 1];
      AnnouncementsTwice(front);
      if !events[|events| - 1].Read? {
        assert Announcements(events)[..|Announcements(front)|] == Announcements(front);
      }
    }
  }

  lemma {:induction false} AnnouncementsDropNobody(ttl: Time, events: seq<Event>, f: string, a: string)
    ensures !Dropped(ttl, Announcements(events), f, a)
  {
    if events != [] {
      var front := events[..|events| - 1];
      AnnouncementsDropNobody(ttl, front, f, a);
      if !events[|events| - 1].Read? {
        assert Announcements(events)[..|Announcements(front)|] == Announcements(front);
      }
    }
  }

  lemma {:induction false} ArrivalIgnoresReads(ttl: Time, events: seq<Event>, f: string, a: string)
    requires RenewsInTime(ttl, events, f)
    ensures Arrival(ttl, events, f, a) == Arrival(ttl, Announcements(events), f, a)
  {
    if events != [] {
      var front, e := events[..|events| - 1], events[|events| - 1];
      RenewsInTimeFront(ttl, events, f);
      ArrivalIgnoresReads(ttl, front, f, a);
      if !e.Read? {
        assert Announcements(events)[..|Announcements(front)|] == Announcements(front);
        LatestIgnoresReads(front, f, a);
        AnnouncementsDropNobody(ttl, front, f, a);
        AnnouncementsTwice(front);
      }
    }
  }

  /** As long as every agent renews before a read drops its record, reads do not even change the order of an answer. */
  lemma OrderUnobservable(ttl: Time, events: seq<Event>, f: string, now: Time)
    requires ReadsBefore(events, f, now) && RenewsInTime(ttl, events, f)
    ensures Answer(ttl, events, f, now) == Answer(ttl, Announcements(events), f, now)
  {
    AnnouncementsTwice(events);
    AnnouncementsReadNothing(events, f, now);
    forall a
      ensures Arrival(ttl, events, f, a) == Arrival(ttl, Announcements(events), f, a)
    {
      ArrivalIgnoresReads(ttl, events, f, a);
    }
    SameListIfReadBefore(ttl, events, Announcements(events), f, now);
  }

  lemma {:induction false} AnnouncementsReadNothing(events: seq<Event>, f: string, now: Time)
    ensures ReadsBefore(Announcements(events), f, now)
  {
    if events != [] {
      AnnouncementsReadNothing(events[..|events| - 1], f, now);
    }
  }

  /** Every announcement of `f` comes while the agent's previous one, if it stands, is still live. */
  predicate KeptAlive(ttl: Time, events: seq<Event>, f: string) {
    forall i :: 0 <= i < |events| && events[i].Register? && events[i].fileHash == f ==>
      !Stale(ttl, events[..i], f, events[i].peer.agentId, events[i].at)
  }

  /** The clock never runs backwards, and `now` is not before the last event. */
  predicate Clocked(events: seq<Event>, now: Time) {
    && (forall i, j :: 0 <= i < j < |events| ==> events[i].at <= events[j].at)
    && (events != [] ==> events[|events| - 1].at <= now)
  }

  /** With a clock that runs forward, keeping every record of `f` alive is renewing it in time. */
  lemma KeptAliveRenewsInTime(ttl: Time, events: seq<Event>, f: string, now: Time)
    requires Clocked(events, now) && KeptAlive(ttl, events, f)
    ensures ReadsBefore(events, f, now) && RenewsInTime(ttl, events, f)
  {
    forall i | 0 <= i < |events| && events[i].Register? && events[i].fileHash == f
      ensures !Dropped(ttl, events[..i], f, events[i].peer.agentId)
    {
      if Dropped(ttl, events[..i], f, events[i].peer.agentId) {
        DroppedIsStale(ttl, events[..i], f, events[i].peer.agentId, events[i].at);
      }
    }
  }

  // ---- examples ----

  lemma {:induction false} FilterNone(ps: seq<PeerInfo>, keep: PeerInfo -> bool)
    requires forall p :: p in ps ==> !keep(p)
    ensures Filter(ps, keep) == []
  {
    if ps != [] {
      FilterNone(ps[..|ps| - 1], keep);
    }
  }

  const PEER_A := PeerInfo("a", "h", 1, 0)
  const PEER_B := PeerInfo("b", "h", 2, 0)
  const FIRST: seq<Event> := [] + [Register("f", PEER_A, 0)] + [Register("f", PEER_B, 5)]
  const RENEWAL := Register("f", PEER_A, 12)
  const WITHOUT_READ: seq<Event> := FIRST + [RENEWAL]
  const WITH_READ: seq<Event> := FIRST + [Read("f", 11)] + [RENEWAL]

  lemma FirstEntries()
    ensures Evolve(10, FIRST, "f") == [Stamped(PEER_A, 0)] + [Stamped(PEER_B, 5)]
  {
    EvolveSnoc(10, [], Register("f", PEER_A, 0), "f");
    EvolveSnoc(10, [] + [Register("f", PEER_A, 0)], Register("f", PEER_B, 5), "f");
    assert Stamped(PEER_B, 5).agentId !in Ids([Stamped(PEER_A, 0)]);
  }

  lemma RenewedInPlace()
    ensures Answer(10, WITHOUT_READ, "f", 13) == [Stamped(PEER_A, 12), Stamped(PEER_B, 5)]
  {
    var a, b := Stamped(PEER_A, 12), Stamped(PEER_B, 5);
    var ps := [Stamped(PEER_A, 0)] + [b];
    FirstEntries();
    EvolveSnoc(10, FIRST, RENEWAL, "f");
    ReplaceAt(ps, a);
    assert Stamped(PEER_A, 0) in ps;
    assert Upsert(ps, a) == [a, b];
    ReplayIsEvolve(10, WITHOUT_READ, "f");
    FilterAll([a, b], (p: PeerInfo) => !IsExpired(p, 10, 13));
  }

  lemma RenewedAtTheEnd()
    ensures Answer(10, WITH_READ, "f", 13) == [Stamped(PEER_B, 5), Stamped(PEER_A, 12)]
  {
    var a, b := Stamped(PEER_A, 0), Stamped(PEER_B, 5);
    var alive := (p: PeerInfo) => !IsExpired(p, 10, 11);
    FirstEntries();
    EvolveSnoc(10, FIRST, Read("f", 11), "f");
    FilterNone([a], alive);
    FilterSnoc([a], b, alive);
    FilterCongruent([a] + [b], alive, (p: PeerInfo) => !IsExpired(p, 10, 11));
    assert Evolve(10, FIRST + [Read("f", 11)], "f") == [b];
    EvolveSnoc(10, FIRST + [Read("f", 11)], RENEWAL, "f");
    ReplayIsEvolve(10, WITH_READ, "f");
    FilterAll([b, Stamped(PEER_A, 12)], (p: PeerInfo) => !IsExpired(p, 10, 13));
  }

  lemma SameAnnouncements()
    ensures Announcements(WITH_READ) == Announcements(WITHOUT_READ)
  {
  }

  lemma BothClocked()
    ensures Clocked(WITH_READ, 13) && Clocked(WITHOUT_READ, 13)
  {
  }

  /** Two runs with the same announcements whose last reads list the same peers in different orders. */
  lemma PruningReorders()
    ensures Clocked(WITH_READ, 13) && Clocked(WITHOUT_READ, 13)
    ensures Announcements(WITH_READ) == Announcements(WITHOUT_READ)
    ensures Answer(10, WITHOUT_READ, "f", 13) == [Stamped(PEER_A, 12), Stamped(PEER_B, 5)]
    ensures Answer(10, WITH_READ, "f", 13) == [Stamped(PEER_B, 5), Stamped(PEER_A, 12)]
    ensures !SameArrivals(10, WITH_READ, WITHOUT_READ, "f", 13)
  {
    BothClocked();
    SameAnnouncements();
    RenewedInPlace();
    RenewedAtTheEnd();
    SameListIfReadBefore(10, WITH_READ, WITHOUT_READ, "f", 13);
  }

  /** A read from the future drops a record that is live at `now`, and the answer is not the history's. */
  lemma BackwardClockExample()
    ensures var events := [Register("f", PEER_A, 0), Read("f", 100)];
            && Dropped(10, events, "f", "a") && !Stale(10, events, "f", "a", 5)
            && Answer(10, events, "f", 5) != Answer(10, Announcements(events), "f", 5)
            && !AnswersHistory(10, events, "f", 5)
  {
    var e0, e1 := Register("f", PEER_A, 0), Read("f", 100);
    var events, a := [e0, e1], Stamped(PEER_A, 0);
    assert events[..1] == [e0] && [e0][..0] == [];
    assert Latest([e0], "f", "a") == Some(a) && Latest(events, "f", "a") == Some(a);
    assert Announcements([e0]) == [e0];
    AnswersHistoryIff(10, events, "f", 5);
    AnswerExact(10, [e0], "f", 5);
    AnswerExact(10, events, "f", 5);
    assert a in Answer(10, [e0], "f", 5) && a !in Answer(10, events, "f", 5);
  }
}

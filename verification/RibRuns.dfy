/** Invariants of every run of the RIB manager: staleness, table ownership, best path. */
module RibRuns {
  import opened Common
  import opened RibKey
  import opened RouteTable
  import opened RouteTableLaws
  import opened RibSession
  import opened RibManager
  import opened RibReplay

  ghost predicate Stored(s: State, peer: Addr, rib: RibType, k: string) {
    peer in s.ribs && rib in s.ribs[peer] && k in s.ribs[peer][rib]
  }

  /** A stored entry is the one its cell finds. */
  lemma StoredIsFound(s: State, peer: Addr, rib: RibType, k: string)
    requires KeyedState(s) && Stored(s, peer, rib, k)
    ensures var e := s.ribs[peer][rib][k]; Lookup(s, Cell(peer, rib, e.prefix, e.pathId)) == Some(e)
  {
  }

  function EmittedAll(h: seq<Event>): seq<RibEvent> {
    if h == [] then [] else EmittedAll(Front(h)) + Emitted(Last(h))
  }

  /** Feeding a history to a new manager, message by message, reaches a state of that history and emits its
      events; so what holds of `Reaches` and `Emitted` holds of the object. */
  method Drive(h: seq<Event>) returns (manager: RibManager)
    ensures Reaches(h, manager.View()) && manager.events == EmittedAll(h)
  {
    hide Step, Emitted;
    manager := new RibManager();
    for i := 0 to |h|
      invariant fresh(manager)
      invariant Reaches(h[..i], manager.View()) && manager.events == EmittedAll(h[..i])
    {
      ghost var mid := manager.View();
      if h[i].ExpireStale? {
        var _ := manager.ExpireStaleForPeer(h[i].peer, h[i].staleSecs, h[i].now);
        assert h[i] == ExpireStale(h[i].peer, h[i].staleSecs, h[i].now);
        ExpiryIsSilent(h[i]);
      } else {
        manager.Process(h[i]);
      }
      assert Front(h[..i + 1]) == h[..i] && Last(h[..i + 1]) == h[i];
      assert Reaches(Front(h[..i + 1]), mid) && Step(mid, Last(h[..i + 1]), manager.View());
    }
    assert h[..|h|] == h;
  }

  lemma ExpiryIsSilent(ev: Event)
    requires ev.ExpireStale?
    ensures Emitted(ev) == []
  {
  }

  // ---------------------------------------------------------------------------
  // Peer sessions
  // ---------------------------------------------------------------------------

  /** The last Peer Up of `peer` on the current session of `speaker`, by its place in the history. */
  ghost function LastUpAt(h: seq<Event>, speaker: Addr, peer: Addr): (i: Option<nat>)
    ensures i.Some? ==> i.value < |h| && h[i.value].PeerUp?
  {
    if h == [] then None
    else
      match Last(h)
      case Termination(sp) => if sp == speaker then None else LastUpAt(Front(h), speaker, peer)
      case PeerUp(sp, p, _, _, _, _, _) =>
        if sp == speaker && p == peer then Some(|h| - 1) else LastUpAt(Front(h), speaker, peer)
      case _ => LastUpAt(Front(h), speaker, peer)
  }

  /** When the peer went down since event `i`, the last time. */
  ghost function DownSince(h: seq<Event>, i: nat, speaker: Addr, peer: Addr): Option<int> {
    if |h| <= i + 1 then None
    else if Last(h).PeerDown? && Last(h).speaker == speaker && Last(h).peer == peer then Some(Last(h).now)
    else DownSince(Front(h), i, speaker, peer)
  }

  /** The record says what its last Peer Up said, and whether the peer went down since. */
  ghost predicate RecordTells(h: seq<Event>, r: PeerRecord, i: nat, speaker: Addr, peer: Addr)
    requires i < |h| && h[i].PeerUp?
  {
    var up, down := h[i], DownSince(h, i, speaker, peer);
    && r.localAs == up.localAs && r.holdTime == up.holdTime && r.upAt == Some(up.now)
    && r.capabilities == up.caps && r.addPathFamilies == FirstAddPath(up.caps)
    && NegotiatedStaleTime(up.caps, r.llgrStaleSecs) && r.llgrActive == (r.llgrStaleSecs > 0)
    && r.state == (if down.Some? then Down else Up)
    && (down.Some? ==> r.downAt == down)
  }

  /** In every reachable state a peer session is that of the last Peer Up: its capabilities, timers and LLGR
      negotiation survive a Peer Down, which changes the state and the time it went down. */
  lemma {:induction false} SessionTells(h: seq<Event>, s: State, speaker: Addr, peer: Addr)
    requires Reaches(h, s) && Knows(s, speaker, peer)
    ensures LastUpAt(h, speaker, peer).Some?
    ensures RecordTells(h, s.speakers[speaker].peers[peer], LastUpAt(h, speaker, peer).value, speaker, peer)
    decreases |h|
  {
    hide RecordTells, LastUpAt, Announce, Withdraw, NegotiatedStaleTime;
    if h != [] {
      var ev := Last(h);
      var mid :| Reaches(Front(h), mid) && Step(mid, ev, s);
      if ev.PeerUp? && ev.speaker == speaker && ev.peer == peer {
        FreshRecordTells(h, mid, s);
      } else {
        OtherStepKnows(mid, ev, s, speaker, peer);
        SessionTells(Front(h), mid, speaker, peer);
        OldRecordTells(h, mid, s, speaker, peer);
      }
    }
  }

  lemma FreshRecordTells(h: seq<Event>, s: State, s': State)
    requires h != [] && Last(h).PeerUp? && Step(s, Last(h), s')
    ensures var up := Last(h);
            && LastUpAt(h, up.speaker, up.peer) == Some(|h| - 1)
            && Knows(s', up.speaker, up.peer)
            && RecordTells(h, s'.speakers[up.speaker].peers[up.peer], |h| - 1, up.speaker, up.peer)
  {
    hide NegotiatedStaleTime, FirstAddPath;
  }

  lemma OtherStepKnows(s: State, ev: Event, s': State, speaker: Addr, peer: Addr)
    requires Step(s, ev, s') && Knows(s', speaker, peer)
    requires !(ev.PeerUp? && ev.speaker == speaker && ev.peer == peer)
    ensures Knows(s, speaker, peer) && !(ev.Termination? && ev.speaker == speaker)
    ensures var r, r' := s.speakers[speaker].peers[peer], s'.speakers[speaker].peers[peer];
            r' == if ev.PeerDown? && ev.speaker == speaker && ev.peer == peer
                  then r.(state := Down, downAt := Some(ev.now)) else r
  {
    hide Announce, Withdraw, NegotiatedStaleTime, FirstAddPath, MarkStale, Drain;
  }

  /** A Peer Up for a peer that is already up is a flap; an Initiation names the speaker and keeps its peers. */
  lemma FlapsAndNames(s: State, ev: Event, s': State)
    requires Step(s, ev, s')
    ensures ev.PeerUp? && Knows(s, ev.speaker, ev.peer) ==>
              var r, r' := s.speakers[ev.speaker].peers[ev.peer], s'.speakers[ev.speaker].peers[ev.peer];
              r'.peerAs == r.peerAs
              && (r.state == Up && r.flapCount < U32_MAX ==> r'.flapCount == r.flapCount + 1)
              && (r.state != Up ==> r'.flapCount == r.flapCount)
    ensures ev.PeerUp? && !Knows(s, ev.speaker, ev.peer) ==>
              var r := s'.speakers[ev.speaker].peers[ev.peer];
              r.peerAs == ev.peerAs && r.flapCount == 0 && r.downAt == None
    ensures ev.Initiation? ==>
              var session := s'.speakers[ev.speaker];
              && session.sysName == ev.sysName && session.sysDescr == ev.sysDescr
              && session.peers == (if ev.speaker in s.speakers then s.speakers[ev.speaker].peers else map[])
              && session.connectedAt == (if ev.speaker in s.speakers then s.speakers[ev.speaker].connectedAt else ev.now)
  {
    hide NegotiatedStaleTime, FirstAddPath, Announce, Withdraw;
  }

  lemma OldRecordTells(h: seq<Event>, s: State, s': State, speaker: Addr, peer: Addr)
    requires h != [] && Step(s, Last(h), s') && Knows(s', speaker, peer) && Knows(s, speaker, peer)
    requires !(Last(h).PeerUp? && Last(h).speaker == speaker && Last(h).peer == peer)
    requires LastUpAt(Front(h), speaker, peer).Some?
    requires RecordTells(Front(h), s.speakers[speaker].peers[peer], LastUpAt(Front(h), speaker, peer).value,
                         speaker, peer)
    ensures LastUpAt(h, speaker, peer) == LastUpAt(Front(h), speaker, peer)
    ensures RecordTells(h, s'.speakers[speaker].peers[peer], LastUpAt(h, speaker, peer).value, speaker, peer)
  {
    hide Step, NegotiatedStaleTime, FirstAddPath;
    OtherStepKnows(s, Last(h), s', speaker, peer);
    var i := LastUpAt(Front(h), speaker, peer).value;
    assert Front(h)[i] == h[i];
  }

  // ---------------------------------------------------------------------------
  // What a Route Monitoring message does to the routes it names
  // ---------------------------------------------------------------------------

  /** Position `i` of a list of path ids, absent behind its end. */
  function IdAt(ids: seq<Option<U32>>, i: nat): Option<U32> {
    if i < |ids| then ids[i] else None
  }

  /** The routes a message announces: each prefix with the path id at its position, and those of MP_REACH without
      one; and likewise what it withdraws. */
  lemma RoutesOfMessage(u: Update, p: Prefix, id: Option<U32>)
    ensures (p, id) in AllAnnounced(u)
            <==> (exists i :: 0 <= i < |u.announced| && u.announced[i] == p && id == IdAt(u.announcedIds, i))
                 || (id == None && u.attributes.mpReach.Some? && p in u.attributes.mpReach.value)
    ensures (p, id) in AllWithdrawn(u)
            <==> (exists i :: 0 <= i < |u.withdrawn| && u.withdrawn[i] == p && id == IdAt(u.withdrawnIds, i))
                 || (id == None && u.attributes.mpUnreach.Some? && p in u.attributes.mpUnreach.value)
  {
    ZipHas(u.announced, u.announcedIds, p, id);
    ZipHas(u.withdrawn, u.withdrawnIds, p, id);
    if u.attributes.mpReach.Some? {
      ZipHas(u.attributes.mpReach.value, [], p, id);
    }
    if u.attributes.mpUnreach.Some? {
      ZipHas(u.attributes.mpUnreach.value, [], p, id);
    }
  }

  lemma ZipHas(ps: seq<Prefix>, ids: seq<Option<U32>>, p: Prefix, id: Option<U32>)
    ensures (p, id) in Zip(ps, ids) <==> exists i :: 0 <= i < |ps| && ps[i] == p && id == IdAt(ids, i)
  {
    forall i | 0 <= i < |ps| && ps[i] == p && id == IdAt(ids, i) ensures (p, id) in Zip(ps, ids) {
      assert Zip(ps, ids)[i] == (p, id);
    }
  }

  /** A message is an End-of-RIB marker if and only if it names no route and has no MP_REACH. */
  lemma EndOfRibIff(u: Update)
    ensures IsEor(u) <==> u.attributes.mpReach == None && AllAnnounced(u) == [] && AllWithdrawn(u) == []
  {
    assert |AllAnnounced(u)| >= |u.announced| && |AllWithdrawn(u)| >= |u.withdrawn|;
    if u.attributes.mpUnreach.Some? {
      assert |AllWithdrawn(u)| == |u.withdrawn| + |u.attributes.mpUnreach.value|;
    }
  }

  /** The filter decides by its verdict on prefix, peer, RIB and attributes: in every reachable state a route
      announced under Accept or Default is stored as announced, and under Deny its cell is left as the message's
      withdrawals make it. */
  lemma VerdictDecides(h: seq<Event>, s: State, speaker: Addr, rm: Monitoring, s': State, r: Route)
    requires Reaches(h, s) && Step(s, RouteMonitoring(speaker, rm), s') && r in AllAnnounced(rm.update)
    ensures var verdict := rm.filter(FilterContext(r.0, rm.peerAs, rm.peer, rm.rib, rm.update.attributes));
            var c := Cell(rm.peer, rm.rib, r.0, r.1);
            && (verdict == Accept || verdict == Default ==>
                  Bare(Lookup(s', c))
                  == Some(RibEntry(r.0, r.1, rm.update.attributes, rm.now, rm.peer, rm.peerAs, true, Normal, None)))
            && (verdict == Deny ==>
                  Bare(Lookup(s', c)) == if r in AllWithdrawn(rm.update) then None else Bare(Lookup(s, c)))
  {
    hide Step, Lookup, Reaches;
    EndOfRibIff(rm.update);
    StateIsReplay(h, s);
    RoutesStepCell(s, RouteMonitoring(speaker, rm), s', Cell(rm.peer, rm.rib, r.0, r.1));
  }

  /** A route that a message does not announce is gone if the message withdraws it, and stays otherwise. */
  lemma UnannouncedCell(h: seq<Event>, s: State, speaker: Addr, rm: Monitoring, s': State, c: Cell)
    requires Reaches(h, s) && Step(s, RouteMonitoring(speaker, rm), s')
    requires c.peer != rm.peer || c.rib != rm.rib || (c.prefix, c.id) !in AllAnnounced(rm.update)
    ensures Bare(Lookup(s', c))
            == if c.peer == rm.peer && c.rib == rm.rib && (c.prefix, c.id) in AllWithdrawn(rm.update)
               then None else Bare(Lookup(s, c))
  {
    hide Step, Lookup, Reaches;
    EndOfRibIff(rm.update);
    StateIsReplay(h, s);
    RoutesStepCell(s, RouteMonitoring(speaker, rm), s', c);
  }

  // ---------------------------------------------------------------------------
  // Emitted events
  // ---------------------------------------------------------------------------

  /** Every message but Route Mirroring is told to the consumers, by one event of its kind. */
  lemma SessionEvents(speaker: Addr, peer: Addr, peerAs: U32, localAs: U32, holdTime: U16, caps: seq<Capability>,
                      sysName: Option<string>, sysDescr: Option<string>, now: int)
    ensures Emitted(Initiation(speaker, sysName, sysDescr, now)) == [SpeakerUp(speaker, sysName, sysDescr)]
    ensures Emitted(Termination(speaker)) == [SpeakerDown(speaker)]
    ensures Emitted(PeerUp(speaker, peer, peerAs, localAs, holdTime, caps, now)) == [PeerCameUp(speaker, peer)]
    ensures Emitted(PeerDown(speaker, peer, now)) == [PeerWentDown(speaker, peer)]
    ensures Emitted(StatsReport(speaker)) == [Stats(speaker)] && Emitted(RouteMirroring(speaker)) == []
  {
  }

  /** The events of a message with routes: one withdrawal for each route withdrawn, in order, then the
      announcements; without routes, an end-of-RIB event. */
  lemma RouteEvents(speaker: Addr, rm: Monitoring)
    ensures var told := Emitted(RouteMonitoring(speaker, rm));
            var gone, come := AllWithdrawn(rm.update), AllAnnounced(rm.update);
            if gone == [] && come == [] && rm.update.attributes.mpReach == None
            then told == [EndOfRib(speaker, rm.peer)]
            else
              && |told| >= |gone|
              && (forall i :: 0 <= i < |gone| ==> told[i] == RouteChange(speaker, rm.peer, rm.rib, gone[i].0, None))
              && told[|gone|..] == Announcements(speaker, rm, come)
  {
    EndOfRibIff(rm.update);
    var gone, come := AllWithdrawn(rm.update), AllAnnounced(rm.update);
    if !IsEor(rm.update) {
      WithdrawalsAt(speaker, rm, gone);
    }
  }

  lemma {:induction false} WithdrawalsAt(speaker: Addr, rm: Monitoring, routes: seq<Route>)
    ensures var told := Withdrawals(speaker, rm, routes);
            |told| == |routes|
            && forall i :: 0 <= i < |routes| ==> told[i] == RouteChange(speaker, rm.peer, rm.rib, routes[i].0, None)
    decreases |routes|
  {
    if routes != [] {
      WithdrawalsAt(speaker, rm, Front(routes));
    }
  }

  /** Announcements come in the order of the routes: those of a list are those of its parts, and one route gives one
      event unless the filter denies it. */
  lemma {:induction false} AnnouncementsAppend(speaker: Addr, rm: Monitoring, a: seq<Route>, b: seq<Route>)
    ensures Announcements(speaker, rm, a + b) == Announcements(speaker, rm, a) + Announcements(speaker, rm, b)
    decreases |b|
  {
    if b == [] {
      assert a + b == a;
    } else {
      assert Front(a + b) == a + Front(b) && Last(a + b) == Last(b);
      AnnouncementsAppend(speaker, rm, a, Front(b));
    }
  }

  lemma OneAnnouncement(speaker: Addr, rm: Monitoring, r: Route)
    ensures Announcements(speaker, rm, [r])
            == if rm.filter(FilterContext(r.0, rm.peerAs, rm.peer, rm.rib, rm.update.attributes)) == Deny then []
               else [RouteChange(speaker, rm.peer, rm.rib, r.0, Some(rm.update.attributes))]
  {
    assert Front([r]) == [] && Last([r]) == r;
    assert Announcements(speaker, rm, Front([r])) == [];
  }

  lemma {:induction false} WithdrawalsTell(speaker: Addr, rm: Monitoring, routes: seq<Route>, p: Prefix)
    ensures RouteChange(speaker, rm.peer, rm.rib, p, None) in Withdrawals(speaker, rm, routes)
            <==> exists id :: (p, id) in routes
    ensures forall e :: e in Withdrawals(speaker, rm, routes) ==> e.RouteChange? && e.attributes == None
    decreases |routes|
  {
    if routes != [] {
      WithdrawalsTell(speaker, rm, Front(routes), p);
      var r := Last(routes);
      assert routes == Front(routes) + [r] && r == (r.0, r.1);
    }
  }

  lemma {:induction false} AnnouncementsTell(speaker: Addr, rm: Monitoring, routes: seq<Route>, p: Prefix)
    ensures RouteChange(speaker, rm.peer, rm.rib, p, Some(rm.update.attributes)) in Announcements(speaker, rm, routes)
            <==> !rm.Denied(p) && exists id :: (p, id) in routes
    ensures forall e :: e in Announcements(speaker, rm, routes) ==>
              e.RouteChange? && e.attributes == Some(rm.update.attributes)
    decreases |routes|
  {
    if routes != [] {
      AnnouncementsTell(speaker, rm, Front(routes), p);
      var r := Last(routes);
      assert routes == Front(routes) + [r] && r == (r.0, r.1);
    }
  }

  /** The events of a message say what it does: an announcement is emitted for exactly the prefixes that some
      accepted route stores with those attributes, a withdrawal for exactly the prefixes it withdraws. */
  lemma EventsTellRoutes(speaker: Addr, rm: Monitoring, s: State, s': State, p: Prefix)
    requires !IsEor(rm.update) && KeyedState(s) && Step(s, RouteMonitoring(speaker, rm), s')
    ensures var told := Emitted(RouteMonitoring(speaker, rm));
            var ev := RouteMonitoring(speaker, rm);
            && (RouteChange(speaker, rm.peer, rm.rib, p, Some(rm.update.attributes)) in told
                <==> exists id :: Announces(ev, Cell(rm.peer, rm.rib, p, id)))
            && (RouteChange(speaker, rm.peer, rm.rib, p, None) in told
                <==> exists id :: (p, id) in AllWithdrawn(rm.update))
    ensures forall id :: Announces(RouteMonitoring(speaker, rm), Cell(rm.peer, rm.rib, p, id)) ==>
              var stored := Lookup(s', Cell(rm.peer, rm.rib, p, id));
              stored.Some? && stored.value.attributes == rm.update.attributes
  {
    hide Withdrawals, Announcements, Step, Lookup;
    var ev := RouteMonitoring(speaker, rm);
    WithdrawalsTell(speaker, rm, AllWithdrawn(rm.update), p);
    AnnouncementsTell(speaker, rm, AllAnnounced(rm.update), p);
    assert forall id :: Announces(ev, Cell(rm.peer, rm.rib, p, id))
                        <==> (p, id) in AllAnnounced(rm.update) && !rm.Denied(p);
    forall id | Announces(ev, Cell(rm.peer, rm.rib, p, id))
      ensures var stored := Lookup(s', Cell(rm.peer, rm.rib, p, id));
              stored.Some? && stored.value.attributes == rm.update.attributes
    {
      RoutesStepCell(s, ev, s', Cell(rm.peer, rm.rib, p, id));
    }
  }

  /** The event names the prefix of the cell, its peer or a speaker that brought the peer up. */
  ghost predicate Names(h: seq<Event>, e: RibEvent, c: Cell) {
    match e
    case RouteChange(_, peer, rib, prefix, _) => peer == c.peer && rib == c.rib && prefix == c.prefix
    case PeerWentDown(_, peer) => peer == c.peer
    case SpeakerDown(speaker) => LastUp(h, speaker, c.peer).Some?
    case _ => false
  }

  ghost predicate Hears(h: seq<Event>, told: seq<RibEvent>, c: Cell) {
    exists e :: e in told && Names(h, e, c)
  }

  /** Exactly which changes of a cell go unheard, best flags aside: the removal of an expired stale route, in
      every reachable state. */
  lemma UnheardChangeIff(h: seq<Event>, s: State, ev: Event, s': State, c: Cell)
    requires Reaches(h, s) && Step(s, ev, s')
    ensures Bare(Lookup(s', c)) != Bare(Lookup(s, c)) && !Hears(h, Emitted(ev), c)
            <==> ev.ExpireStale? && ev.peer == c.peer && Lookup(s, c).Some?
                 && Expired(Lookup(s, c).value, ev.now, ev.staleSecs)
  {
    hide Step, Lookup, Reaches, LongLivedAt, LastUp, Announces, Emitted, Replay;
    StateIsReplay(h, s);
    StepCell(h, s, ev, s', c);
    assert Bare(Lookup(s, c)) == Replay(h, c);
    CellChange(h, ev, c);
    if ev.ExpireStale? {
      ExpiryIsSilent(ev);
      ExpiryChange(h, Lookup(s, c), ev, c);
    } else if Bare(Lookup(s', c)) != Bare(Lookup(s, c)) {
      ChangeHeard(h, ev, c);
    }
  }

  lemma CellChange(h: seq<Event>, ev: Event, c: Cell)
    ensures Replay(h + [ev], c) == CellAfter(h, Replay(h, c), ev, c)
  {
    assert Front(h + [ev]) == h && Last(h + [ev]) == ev;
  }

  lemma ExpiryChange(h: seq<Event>, held: Option<RibEntry>, ev: Event, c: Cell)
    requires ev.ExpireStale?
    ensures CellAfter(h, Bare(held), ev, c) != Bare(held)
            <==> ev.peer == c.peer && held.Some? && Expired(held.value, ev.now, ev.staleSecs)
  {
  }

  lemma ChangeHeard(h: seq<Event>, ev: Event, c: Cell)
    requires CellAfter(h, Replay(h, c), ev, c) != Replay(h, c) && !ev.ExpireStale?
    ensures Hears(h, Emitted(ev), c)
  {
    hide Replay, LongLivedAt, LastUp, Announces, Withdraws;
    match ev {
      case RouteMonitoring(_, _) => RouteChangeHeard(h, ev, c);
      case PeerDown(speaker, peer, _) => assert Names(h, PeerWentDown(speaker, peer), c) by { NoRoutes(ev, c); }
      case Termination(speaker) => assert Names(h, SpeakerDown(speaker), c) by { NoRoutes(ev, c); }
      case _ => NoRoutes(ev, c);
    }
  }

  lemma NoRoutes(ev: Event, c: Cell)
    requires !ev.RouteMonitoring?
    ensures !Announces(ev, c) && !Withdraws(ev, c)
  {
  }

  lemma RouteChangeHeard(h: seq<Event>, ev: Event, c: Cell)
    requires ev.RouteMonitoring? && (Announces(ev, c) || Withdraws(ev, c))
    ensures Hears(h, Emitted(ev), c)
  {
    hide Withdrawals, Announcements, AllWithdrawn, AllAnnounced;
    var rm := ev.rm;
    WithdrawalsTell(ev.speaker, rm, AllWithdrawn(rm.update), c.prefix);
    AnnouncementsTell(ev.speaker, rm, AllAnnounced(rm.update), c.prefix);
    var gone := RouteChange(ev.speaker, rm.peer, rm.rib, c.prefix, None);
    var come := RouteChange(ev.speaker, rm.peer, rm.rib, c.prefix, Some(rm.update.attributes));
    assert Names(h, gone, c) && Names(h, come, c);
    assert gone in Emitted(ev) || come in Emitted(ev);
  }

  // ---------------------------------------------------------------------------
  // LLGR
  // ---------------------------------------------------------------------------

  lemma {:induction false} ReplayLlgrConsistent(h: seq<Event>, c: Cell)
    ensures Replay(h, c).Some? ==> LlgrConsistent(Replay(h, c).value)
  {
    if h != [] {
      ReplayLlgrConsistent(Front(h), c);
    }
  }

  /** In every reachable state a stored route is stale-marked exactly when it has a stale time, and
      none is marked deleted. */
  lemma RunKeepsLlgr(h: seq<Event>, s: State, peer: Addr, rib: RibType, k: string)
    requires Reaches(h, s) && Stored(s, peer, rib, k)
    ensures LlgrConsistent(s.ribs[peer][rib][k])
  {
    StateIsReplay(h, s);
    StoredIsFound(s, peer, rib, k);
    var e := s.ribs[peer][rib][k];
    var c := Cell(peer, rib, e.prefix, e.pathId);
    assert Bare(Lookup(s, c)) == Replay(h, c);
    ReplayLlgrConsistent(h, c);
  }

  /** A Peer Down never moves the stale time of a route that is already stale. */
  lemma PeerDownKeepsStaleTime(h: seq<Event>, s: State, down: Event, s': State, c: Cell)
    requires Reaches(h, s) && down.PeerDown? && Step(s, down, s')
    requires Lookup(s, c).Some? && Lookup(s, c).value.llgr == StaleMarked && Lookup(s', c).Some?
    ensures Lookup(s', c).value.staleAt == Lookup(s, c).value.staleAt
  {
  }

  /** Expiring a peer's routes in any reachable state removes exactly the routes of that peer whose
      stale time is at least `secs` seconds old, and touches nothing else. */
  lemma ExpiryRemovesExactly(h: seq<Event>, s: State, peer: Addr, secs: U32, now: int, s': State, c: Cell)
    requires Reaches(h, s) && secs >= 1 && Step(s, ExpireStale(peer, secs, now), s')
    ensures Lookup(s', c)
            == if c.peer == peer && Lookup(s, c).Some? && Lookup(s, c).value.staleAt.Some?
                  && Lookup(s, c).value.staleAt.value + secs * SECOND <= now
               then None else Lookup(s, c)
  {
    if Lookup(s, c).Some? {
      RunKeepsLlgr(h, s, c.peer, c.rib, EntryKey(c.prefix, c.id));
      ExpiredExactly(Lookup(s, c).value, now, secs);
    }
  }

  // ---------------------------------------------------------------------------
  // Ownership of tables
  // ---------------------------------------------------------------------------

  /** Every Route Monitoring message follows a Peer Up for its peer on the same speaker session
      (section 3.3 of RFC 7854). */
  ghost predicate PeerUpFirst(h: seq<Event>) {
    forall i :: 0 <= i < |h| && h[i].RouteMonitoring? ==>
      LastUp(h[..i], h[i].speaker, h[i].rm.peer).Some?
  }

  ghost predicate HasRoute(s: State, peer: Addr) {
    exists rib, k :: Stored(s, peer, rib, k)
  }

  ghost predicate Owned(s: State, peer: Addr) {
    exists speaker :: Knows(s, speaker, peer)
  }

  /** Then every peer with a route belongs to a live speaker session, at every point of the run. */
  lemma {:induction false} RoutesAreOwned(h: seq<Event>, s: State, peer: Addr)
    requires Reaches(h, s) && PeerUpFirst(h) && HasRoute(s, peer)
    ensures Owned(s, peer)
    decreases |h|
  {
    hide Step, LastUp, LongLivedAt, Replay;
    if h != [] {
      var ev := Last(h);
      var mid :| Reaches(Front(h), mid) && Step(mid, ev, s);
      PeerUpFirstFront(h);
      StateIsReplay(Front(h), mid);
      if ev.RouteMonitoring? && ev.rm.peer == peer {
        assert Knows(mid, ev.speaker, peer);
        StepKeepsOwner(mid, ev, s, ev.speaker, peer);
      } else {
        StepAddsNoRoute(mid, ev, s, peer);
        RoutesAreOwned(Front(h), mid, peer);
        var speaker :| Knows(mid, speaker, peer);
        StepKeepsOwner(mid, ev, s, speaker, peer);
      }
    }
  }

  lemma PeerUpFirstFront(h: seq<Event>)
    requires h != [] && PeerUpFirst(h)
    ensures PeerUpFirst(Front(h))
    ensures Last(h).RouteMonitoring? ==> LastUp(Front(h), Last(h).speaker, Last(h).rm.peer).Some?
  {
    assert h[..|h| - 1] == Front(h);
    forall i | 0 <= i < |Front(h)| && Front(h)[i].RouteMonitoring?
      ensures LastUp(Front(h)[..i], Front(h)[i].speaker, Front(h)[i].rm.peer).Some?
    {
      assert Front(h)[..i] == h[..i];
    }
  }

  lemma StepAddsNoRoute(s: State, ev: Event, s': State, peer: Addr)
    requires Step(s, ev, s') && HasRoute(s', peer) && !(ev.RouteMonitoring? && ev.rm.peer == peer)
    ensures HasRoute(s, peer)
  {
    var rib, k :| Stored(s', peer, rib, k);
    assert Stored(s, peer, rib, k);
  }

  /** A peer that keeps a route keeps every session that knows it. */
  lemma StepKeepsOwner(s: State, ev: Event, s': State, speaker: Addr, peer: Addr)
    requires Step(s, ev, s') && HasRoute(s', peer) && Knows(s, speaker, peer)
    ensures Knows(s', speaker, peer)
  {
  }

  /** So a Termination leaves no route of a peer that only the terminated speaker knew. */
  lemma TerminationLeavesNoOrphans(h: seq<Event>, s: State, speaker: Addr, s': State, peer: Addr)
    requires Reaches(h, s) && PeerUpFirst(h) && Step(s, Termination(speaker), s')
    requires forall other :: Knows(s, other, peer) ==> other == speaker
    ensures !HasRoute(s', peer)
  {
    if HasRoute(s', peer) {
      var rib, k :| Stored(s', peer, rib, k);
      assert Stored(s, peer, rib, k);
      assert !Knows(s, speaker, peer);
      RoutesAreOwned(h, s, peer);
      assert false;
    }
  }

  /** Exactly which routes a Termination leaves, in any reachable state and without that condition: those
      of peers for which the speaker sent no Peer Up on its current session. */
  lemma TerminationLeavesIff(h: seq<Event>, s: State, speaker: Addr, s': State, c: Cell)
    requires Reaches(h, s) && Step(s, Termination(speaker), s')
    ensures Lookup(s', c) == if LastUp(h, speaker, c.peer).Some? then None else Lookup(s, c)
  {
    StateIsReplay(h, s);
    assert Knows(s, speaker, c.peer) <==> LastUp(h, speaker, c.peer).Some?;
  }

  /** Without the Peer Up a route outlives its speaker: nothing ties the peer to the session. */
  lemma OrphanWithoutPeerUp(rm: Monitoring, s: State, s': State)
    requires rm.update.announced == ["p"] && rm.update.announcedIds == [None]
    requires rm.update.attributes.mpReach == None && !rm.Denied("p")
    requires Reaches([RouteMonitoring("r", rm)], s) && Step(s, Termination("r"), s')
    ensures Lookup(s', Cell(rm.peer, rm.rib, "p", None)).Some?
  {
  }

  // ---------------------------------------------------------------------------
  // Best path
  // ---------------------------------------------------------------------------

  /** Every accepted announcement of the prefix has a path id, or none has, as `addPath` says. */
  ghost predicate AlwaysAnnounced(h: seq<Event>, peer: Addr, rib: RibType, p: Prefix, addPath: bool) {
    forall i, id :: 0 <= i < |h| && Announces(h[i], Cell(peer, rib, p, id)) ==> id.Some? == addPath
  }

  ghost function RoutesIn(s: State, peer: Addr, rib: RibType): Routes {
    RoutesOf(TablesOf(s, peer), rib)
  }

  /** The two maps hold the same routes for the prefix. */
  ghost predicate SameFor(m: Routes, m': Routes, p: Prefix) {
    forall k :: (k in m && m[k].prefix == p <==> k in m' && m'[k].prefix == p)
                && (k in m && m[k].prefix == p ==> m'[k] == m[k])
  }

  lemma SameForKeepsBest(m: Routes, m': Routes, p: Prefix)
    requires SameFor(m, m', p)
    ensures AtMostOneBest(m, p) ==> AtMostOneBest(m', p)
    ensures OneMinimalBest(m, p) ==> OneMinimalBest(m', p)
  {
    forall k ensures BestOf(m, p, k) <==> BestOf(m', p, k) {
    }
    if OneMinimalBest(m, p) {
      var k :| BestOf(m, p, k)
               && forall j :: j in m && m[j].prefix == p ==> RankLe(RankOf(m[k]), RankOf(m[j]));
      assert BestOf(m', p, k);
    }
  }

  lemma AnnounceOtherPrefix(t: Tables, rm: Monitoring, r: Route, t': Tables, p: Prefix)
    requires KeyedTables(t) && AnnounceOne(t, rm, r, t') && (r.0 != p || rm.Denied(p))
    ensures SameFor(RoutesOf(t, rm.rib), RoutesOf(t', rm.rib), p)
  {
    if !rm.Denied(r.0) {
      var m := RoutesOf(t, rm.rib);
      var key := EntryKey(r.0, r.1);
      var put := Put(t, rm.rib, rm.Entry(r))[rm.rib];
      if key in m {
        EntryKeyInjective(m[key].prefix, m[key].pathId, r.0, r.1);
      }
      assert SameFor(m, put, p);
      if r.1.Some? {
        ElectionKeepsKeys(put, t'[rm.rib], r.0);
      }
    }
  }

  /** An accepted Add-Path announcement elects: exactly one best route, a minimal one, whatever the
      flags were before. */
  lemma AddPathAnnounceElects(t: Tables, rm: Monitoring, r: Route, t': Tables)
    requires KeyedTables(t) && AnnounceOne(t, rm, r, t') && r.1.Some? && !rm.Denied(r.0)
    ensures OneMinimalBest(RoutesOf(t', rm.rib), r.0)
  {
    var put := Put(t, rm.rib, rm.Entry(r))[rm.rib];
    assert Keyed(put);
    ElectionLeavesOneMinimal(put, t'[rm.rib], r.0, EntryKey(r.0, r.1));
  }

  lemma OneMinimalIsOne(m: Routes, p: Prefix)
    requires OneMinimalBest(m, p)
    ensures AtMostOneBest(m, p)
  {
  }

  /** Announcements of the prefix that all have path ids leave exactly one best route, a minimal one, whatever
      was flagged before. */
  lemma {:induction false} AnnounceElects(t: Tables, rm: Monitoring, routes: seq<Route>, t': Tables, p: Prefix)
    requires KeyedTables(t) && Announce(t, rm, routes, t') && !rm.Denied(p)
    requires forall id :: (p, id) in routes ==> id.Some?
    ensures KeyedTables(t')
    ensures if exists id :: (p, id) in routes then OneMinimalBest(RoutesOf(t', rm.rib), p)
            else SameFor(RoutesOf(t, rm.rib), RoutesOf(t', rm.rib), p)
    decreases |routes|
  {
    hide AnnounceOne, KeyedTables, OneMinimalBest, RoutesOf;
    if routes != [] {
      var mid :| Announce(t, rm, Front(routes), mid) && AnnounceOne(mid, rm, Last(routes), t');
      var r := Last(routes);
      assert routes == Front(routes) + [r] && r == (r.0, r.1);
      AnnounceElects(t, rm, Front(routes), mid, p);
      AnnounceOneFinds(mid, rm, r, t', rm.rib, p, None);
      if r.0 == p {
        AddPathAnnounceElects(mid, rm, r, t');
      } else {
        AnnounceOtherPrefix(mid, rm, r, t', p);
        if exists id :: (p, id) in routes {
          assert exists id :: (p, id) in Front(routes);
          SameForKeepsBest(RoutesOf(mid, rm.rib), RoutesOf(t', rm.rib), p);
        }
      }
    }
  }

  lemma {:induction false} AnnounceOtherRib(t: Tables, rm: Monitoring, routes: seq<Route>, t': Tables, rib: RibType)
    requires Announce(t, rm, routes, t') && rib != rm.rib
    ensures RoutesOf(t', rib) == RoutesOf(t, rib)
    decreases |routes|
  {
    if routes != [] {
      hide AnnounceOne;
      var mid :| Announce(t, rm, Front(routes), mid) && AnnounceOne(mid, rm, Last(routes), t');
      AnnounceOtherRib(t, rm, Front(routes), mid, rib);
      AnnounceOneOtherRib(mid, rm, Last(routes), t', rib);
    }
  }

  lemma AnnounceOneOtherRib(t: Tables, rm: Monitoring, r: Route, t': Tables, rib: RibType)
    requires AnnounceOne(t, rm, r, t') && rib != rm.rib
    ensures RoutesOf(t', rib) == RoutesOf(t, rib)
  {
    hide Elected, EntryKey;
  }

  lemma {:induction false} WithdrawFewer(t: Tables, rib: RibType, routes: seq<Route>, rib': RibType)
    ensures forall k :: k in RoutesOf(Withdraw(t, rib, routes), rib') ==>
              k in RoutesOf(t, rib') && RoutesOf(Withdraw(t, rib, routes), rib')[k] == RoutesOf(t, rib')[k]
  {
    if routes != [] {
      WithdrawFewer(t, rib, Front(routes), rib');
    }
  }

  /** Every accepted announcement of the prefix in the event has a path id. */
  ghost predicate OnlyWithIds(ev: Event, peer: Addr, rib: RibType, p: Prefix) {
    forall id :: Announces(ev, Cell(peer, rib, p, id)) ==> id.Some?
  }

  /** A message that announces the prefix, and only with path ids, leaves exactly one best route, a minimal one,
      whatever was announced before. */
  lemma MonitoringElects(s: State, ev: Event, s': State, peer: Addr, rib: RibType, p: Prefix)
    requires KeyedState(s) && Step(s, ev, s')
    requires OnlyWithIds(ev, peer, rib, p) && !NotAnnounced(ev, peer, rib, p)
    ensures OneMinimalBest(RoutesIn(s', peer, rib), p)
  {
    hide Announce, Withdraw, OneMinimalBest;
    var id0 :| Announces(ev, Cell(peer, rib, p, id0));
    var rm := ev.rm;
    var t := TablesOf(s, peer);
    var w := Withdraw(t, rib, AllWithdrawn(rm.update));
    WithdrawFinds(t, rib, AllWithdrawn(rm.update), rib, p, None);
    forall id | (p, id) in AllAnnounced(rm.update) ensures id.Some? {
      assert Announces(ev, Cell(peer, rib, p, id));
    }
    assert (p, id0) in AllAnnounced(rm.update);
    AnnounceElects(w, rm, AllAnnounced(rm.update), s'.ribs[peer], p);
  }

  lemma SubsetKeepsOne(m: Routes, m': Routes, p: Prefix)
    requires Subset(m, m', p) && AtMostOneBest(m, p)
    ensures AtMostOneBest(m', p)
  {
    forall j, k | BestOf(m', p, j) && BestOf(m', p, k) ensures j == k {
      assert BestOf(m, p, j) && BestOf(m, p, k);
    }
  }

  lemma AlwaysAnnouncedFront(h: seq<Event>, peer: Addr, rib: RibType, p: Prefix, addPath: bool)
    requires h != [] && AlwaysAnnounced(h, peer, rib, p, addPath)
    ensures AlwaysAnnounced(Front(h), peer, rib, p, addPath)
    ensures forall id :: Announces(Last(h), Cell(peer, rib, p, id)) ==> id.Some? == addPath
  {
  }

  lemma {:induction false} AddPathRunKeepsBest(h: seq<Event>, s: State, peer: Addr, rib: RibType, p: Prefix)
    requires Reaches(h, s) && AlwaysAnnounced(h, peer, rib, p, true)
    ensures AtMostOneBest(RoutesIn(s, peer, rib), p)
    decreases |h|
  {
    hide Step, AtMostOneBest, OneMinimalBest, Announces;
    if h == [] {
      NoRouteNoBest(p);
    } else {
      var mid :| Reaches(Front(h), mid) && Step(mid, Last(h), s);
      AlwaysAnnouncedFront(h, peer, rib, p, true);
      AddPathRunKeepsBest(Front(h), mid, peer, rib, p);
      StateIsReplay(Front(h), mid);
      if NotAnnounced(Last(h), peer, rib, p) {
        StepTakesAway(mid, Last(h), s, peer, rib, p);
        SubsetKeepsOne(RoutesIn(mid, peer, rib), RoutesIn(s, peer, rib), p);
      } else {
        MonitoringElects(mid, Last(h), s, peer, rib, p);
        OneMinimalIsOne(RoutesIn(s, peer, rib), p);
      }
    }
  }

  lemma NoRouteNoBest(p: Prefix)
    ensures AtMostOneBest(map[], p)
  {
  }

  /** Right after an event that announces the prefix, and only with path ids, exactly one of its routes is best,
      and it is minimal: after any history, mixed announcements included. */
  lemma ElectedAfterAddPath(h: seq<Event>, s: State, peer: Addr, rib: RibType, p: Prefix)
    requires h != [] && Reaches(h, s)
    requires OnlyWithIds(Last(h), peer, rib, p) && !NotAnnounced(Last(h), peer, rib, p)
    ensures OneMinimalBest(RoutesIn(s, peer, rib), p)
  {
    hide Step, OneMinimalBest, OnlyWithIds, NotAnnounced;
    var mid :| Reaches(Front(h), mid) && Step(mid, Last(h), s);
    StateIsReplay(Front(h), mid);
    MonitoringElects(mid, Last(h), s, peer, rib, p);
  }

  /** A prefix that is always announced without path ids has a single key. */
  lemma PlainRunHasOneKey(h: seq<Event>, s: State, peer: Addr, rib: RibType, p: Prefix, k: string)
    requires Reaches(h, s) && AlwaysAnnounced(h, peer, rib, p, false)
    requires k in RoutesIn(s, peer, rib) && RoutesIn(s, peer, rib)[k].prefix == p
    ensures k == EntryKey(p, None)
  {
    hide Reaches, Announces, Replay;
    var e := RoutesIn(s, peer, rib)[k];
    var c := Cell(peer, rib, p, e.pathId);
    assert k == EntryKey(p, e.pathId) && Lookup(s, c).Some? by {
      StateIsReplay(h, s);
    }
    var i := StoredWasAnnounced(h, s, c);
  }

  /** Every stored route was announced, and accepted, by some event of the history. */
  lemma StoredWasAnnounced(h: seq<Event>, s: State, c: Cell) returns (i: nat)
    requires Reaches(h, s) && Lookup(s, c).Some?
    ensures i < |h| && Announces(h[i], c)
  {
    hide Ends, Written, FirstStale, Announces, Replay, Reaches, Lookup;
    StateIsReplay(h, s);
    assert Bare(Lookup(s, c)) == Replay(h, c);
    LastWriterWins(h, |h|, c);
    assert h[..|h|] == h;
    i :| LastWriter(h, i, |h|, c);
  }

  /** In every run that announces a prefix always with or always without path ids, at most one of
      its routes is best; right after an accepted Add-Path announcement exactly one is, and no route of
      the prefix has a better (LOCAL_PREF, hops, MED). */
  lemma BestPathInvariant(h: seq<Event>, s: State, peer: Addr, rib: RibType, p: Prefix, addPath: bool)
    requires Reaches(h, s) && AlwaysAnnounced(h, peer, rib, p, addPath)
    ensures AtMostOneBest(RoutesIn(s, peer, rib), p)
    ensures addPath && h != [] && !NotAnnounced(Last(h), peer, rib, p) ==> OneMinimalBest(RoutesIn(s, peer, rib), p)
  {
    if addPath {
      AddPathRunKeepsBest(h, s, peer, rib, p);
      if h != [] && !NotAnnounced(Last(h), peer, rib, p) {
        AlwaysAnnouncedFront(h, peer, rib, p, true);
        ElectedAfterAddPath(h, s, peer, rib, p);
      }
    } else {
      forall j, k | BestOf(RoutesIn(s, peer, rib), p, j) && BestOf(RoutesIn(s, peer, rib), p, k)
        ensures j == k
      {
        PlainRunHasOneKey(h, s, peer, rib, p, j);
        PlainRunHasOneKey(h, s, peer, rib, p, k);
      }
    }
  }

  // ---------------------------------------------------------------------------
  // Mixed announcements
  // ---------------------------------------------------------------------------

  /** The message withdraws nothing and announces one route, which the filter lets through. */
  ghost predicate AnnouncesOnly(ev: Event, r: Route) {
    && ev.RouteMonitoring?
    && AllWithdrawn(ev.rm.update) == [] && AllAnnounced(ev.rm.update) == [r]
    && !IsEor(ev.rm.update) && !ev.rm.Denied(r.0)
  }

  lemma StepAnnouncesOnly(s: State, ev: Event, s': State, r: Route)
    requires AnnouncesOnly(ev, r) && Step(s, ev, s')
    ensures AnnounceOne(TablesOf(s, ev.rm.peer), ev.rm, r, TablesOf(s', ev.rm.peer))
  {
    hide AnnounceOne;
    var t, t' := TablesOf(s, ev.rm.peer), TablesOf(s', ev.rm.peer);
    assert Front([r]) == [] && Last([r]) == r;
    assert Announce(t, ev.rm, [r], t');
    var mid :| Announce(t, ev.rm, Front([r]), mid) && AnnounceOne(mid, ev.rm, r, t');
    assert mid == t;
  }

  /** What such a message does to a cell. */
  lemma ReplayAnnouncesOnly(h: seq<Event>, ev: Event, r: Route, c: Cell)
    requires AnnouncesOnly(ev, r)
    ensures Announces(ev, c) <==> c == Cell(ev.rm.peer, ev.rm.rib, r.0, r.1)
    ensures Replay(h + [ev], c) == if Announces(ev, c) then Some(ev.rm.Entry(r)) else Replay(h, c)
  {
    assert Front(h + [ev]) == h && Last(h + [ev]) == ev;
    assert (c.prefix, c.id) in [r] <==> (c.prefix, c.id) == r;
  }

  /** In every reachable state, announcing a prefix without a path id keeps one best route if and only if
      no Add-Path route of the prefix was best. */
  lemma PlainMessageKeepsOneBestIff(h: seq<Event>, s: State, ev: Event, s': State, p: Prefix)
    requires Reaches(h, s) && AnnouncesOnly(ev, (p, None)) && Step(s, ev, s')
    ensures var m := RoutesIn(s, ev.rm.peer, ev.rm.rib);
            AtMostOneBest(RoutesIn(s', ev.rm.peer, ev.rm.rib), p)
            <==> forall k :: BestOf(m, p, k) ==> m[k].pathId == None
  {
    hide Reaches, Step, BestOf, AtMostOneBest;
    StateIsReplay(h, s);
    StepAnnouncesOnly(s, ev, s', (p, None));
    PlainAnnounceKeepsOneBestIff(RoutesIn(s, ev.rm.peer, ev.rm.rib), ev.rm.Entry((p, None)));
  }

  /** It does fail: a prefix announced with a path id, then without. */
  lemma MixedAnnouncementsTwoBest(first: Event, second: Event, s: State)
    requires AnnouncesOnly(first, ("p", Some(1))) && AnnouncesOnly(second, ("p", None))
    requires first.rm.peer == second.rm.peer && first.rm.rib == second.rm.rib
    requires Reaches([first, second], s)
    ensures !AtMostOneBest(RoutesIn(s, first.rm.peer, first.rm.rib), "p")
  {
    hide Step, AtMostOneBest;
    var h := [first, second];
    assert Front(h) == [first] && Front([first]) == [];
    var mid :| Reaches([first], mid) && Step(mid, second, s);
    var start :| Reaches(Front([first]), start) && Step(start, Last([first]), mid);
    assert start == EMPTY_STATE;
    StepAnnouncesOnly(EMPTY_STATE, first, mid, ("p", Some(1)));
    OnlyRouteIsBest(first.rm, ("p", Some(1)), TablesOf(mid, first.rm.peer));
    PlainMessageKeepsOneBestIff([first], mid, second, s, "p");
    var k := EntryKey("p", Some(1));
    assert BestOf(RoutesIn(mid, first.rm.peer, first.rm.rib), "p", k);
    assert RoutesIn(mid, first.rm.peer, first.rm.rib)[k].pathId != None;
  }

  /** The first Add-Path route of a table is best. */
  lemma OnlyRouteIsBest(rm: Monitoring, r: Route, t: Tables)
    requires r.1.Some? && !rm.Denied(r.0) && AnnounceOne(map[], rm, r, t)
    ensures BestOf(RoutesOf(t, rm.rib), r.0, EntryKey(r.0, r.1))
    ensures RoutesOf(t, rm.rib)[EntryKey(r.0, r.1)].pathId == r.1
  {
    hide EntryKey, RankOf, RankLe;
    var key := EntryKey(r.0, r.1);
    var put := Put(map[], rm.rib, rm.Entry(r))[rm.rib];
    assert put == map[key := rm.Entry(r)];
    ScannedIffSamePrefix(r.0, r.0, r.1);
  }

  // ---------------------------------------------------------------------------
  // When a prefix with routes has a best route
  // ---------------------------------------------------------------------------

  ghost predicate NotAnnounced(ev: Event, peer: Addr, rib: RibType, p: Prefix) {
    forall id :: !Announces(ev, Cell(peer, rib, p, id))
  }

  /** `m'` holds some of the routes that `m` holds for the prefix, with the same best flags. */
  ghost predicate Subset(m: Routes, m': Routes, p: Prefix) {
    forall k :: k in m' && m'[k].prefix == p ==> k in m && m[k].prefix == p && m'[k].isBest == m[k].isBest
  }

  lemma {:induction false} AnnounceOthers(t: Tables, rm: Monitoring, routes: seq<Route>, t': Tables, p: Prefix)
    requires KeyedTables(t) && Announce(t, rm, routes, t')
    requires rm.Denied(p) || forall id :: (p, id) !in routes
    ensures KeyedTables(t') && SameFor(RoutesOf(t, rm.rib), RoutesOf(t', rm.rib), p)
    decreases |routes|
  {
    hide AnnounceOne, KeyedTables;
    if routes != [] {
      var mid :| Announce(t, rm, Front(routes), mid) && AnnounceOne(mid, rm, Last(routes), t');
      var r := Last(routes);
      assert routes == Front(routes) + [r];
      AnnounceOthers(t, rm, Front(routes), mid, p);
      assert r.0 != p || rm.Denied(p) by { assert r == (r.0, r.1); }
      AnnounceOtherPrefix(mid, rm, r, t', p);
      AnnounceOneFinds(mid, rm, r, t', rm.rib, p, None);
    }
  }

  /** An event that does not announce the prefix only takes routes away from it: no election follows a
      withdrawal, an expiry or a Peer Down. */
  lemma StepTakesAway(s: State, ev: Event, s': State, peer: Addr, rib: RibType, p: Prefix)
    requires KeyedState(s) && Step(s, ev, s') && NotAnnounced(ev, peer, rib, p)
    ensures Subset(RoutesIn(s, peer, rib), RoutesIn(s', peer, rib), p)
  {
    hide KeyedState, NotAnnounced, MarkStale, Drain, Announce, Withdraw, CameUp;
    match ev {
      case RouteMonitoring(_, rm) =>
        if rm.peer == peer && !IsEor(rm.update) {
          MonitoringTakesAway(s, ev, s', rib, p);
        }
      case PeerDown(_, _, now) => DownTakesAway(s, ev, s', peer, rib, p);
      case ExpireStale(_, secs, now) => DrainTakesAway(TablesOf(s, peer), now, secs, rib, p);
      case _ =>
    }
  }

  lemma DownTakesAway(s: State, ev: Event, s': State, peer: Addr, rib: RibType, p: Prefix)
    requires ev.PeerDown? && Step(s, ev, s')
    ensures Subset(RoutesIn(s, peer, rib), RoutesIn(s', peer, rib), p)
  {
    hide MarkStale, LlgrActive, DownSpeakers;
    StaleTakesAway(TablesOf(s, peer), ev.now, rib, p);
  }

  lemma StaleTakesAway(t: Tables, now: int, rib: RibType, p: Prefix)
    ensures Subset(RoutesOf(t, rib), RoutesOf(MarkStale(t, now), rib), p)
  {
  }

  lemma DrainTakesAway(t: Tables, now: int, staleSecs: U32, rib: RibType, p: Prefix)
    ensures Subset(RoutesOf(t, rib), RoutesOf(Drain(t, now, staleSecs), rib), p)
  {
    hide Expired;
  }

  lemma MonitoringTakesAway(s: State, ev: Event, s': State, rib: RibType, p: Prefix)
    requires ev.RouteMonitoring? && !IsEor(ev.rm.update)
    requires KeyedState(s) && Step(s, ev, s') && NotAnnounced(ev, ev.rm.peer, rib, p)
    ensures Subset(RoutesIn(s, ev.rm.peer, rib), RoutesIn(s', ev.rm.peer, rib), p)
  {
    hide Announce, Withdraw;
    var rm := ev.rm;
    var t := TablesOf(s, rm.peer);
    var w := Withdraw(t, rm.rib, AllWithdrawn(rm.update));
    WithdrawFinds(t, rm.rib, AllWithdrawn(rm.update), rib, p, None);
    WithdrawFewer(t, rm.rib, AllWithdrawn(rm.update), rib);
    if rm.rib == rib {
      forall id | (p, id) in AllAnnounced(rm.update) ensures rm.Denied(p) {
        assert !Announces(ev, Cell(rm.peer, rib, p, id));
      }
      AnnounceOthers(w, rm, AllAnnounced(rm.update), s'.ribs[rm.peer], p);
    } else {
      AnnounceOtherRib(w, rm, AllAnnounced(rm.update), s'.ribs[rm.peer], rib);
    }
  }

  ghost predicate NeverAnnounced(h: seq<Event>, peer: Addr, rib: RibType, p: Prefix) {
    forall i :: 0 <= i < |h| ==> NotAnnounced(h[i], peer, rib, p)
  }

  lemma {:induction false} RunTakesAway(h: seq<Event>, more: seq<Event>, s: State, peer: Addr, rib: RibType, p: Prefix)
    returns (mid: State)
    requires Reaches(h + more, s) && NeverAnnounced(more, peer, rib, p)
    ensures Reaches(h, mid) && Subset(RoutesIn(mid, peer, rib), RoutesIn(s, peer, rib), p)
    decreases |more|
  {
    hide Step, NotAnnounced, RoutesIn, KeyedState, SessionsMatch, CellsMatch;
    if more == [] {
      assert h + more == h;
      mid := s;
    } else {
      var all := h + more;
      assert Front(all) == h + Front(more) && Last(all) == Last(more);
      var last :| Reaches(Front(all), last) && Step(last, Last(all), s);
      mid := RunTakesAway(h, Front(more), last, peer, rib, p);
      StateIsReplay(Front(all), last);
      StepTakesAway(last, Last(more), s, peer, rib, p);
    }
  }

  /** After a message that announces the prefix only with path ids, whatever came before it, the prefix has a
      best route exactly as long as the route that message elected is stored: when that one goes, none of the
      others is promoted. */
  lemma BestWhileElectedStored(h: seq<Event>, more: seq<Event>, s: State, peer: Addr, rib: RibType, p: Prefix)
    returns (mid: State, elected: Option<U32>)
    requires h != [] && Reaches(h + more, s)
    requires OnlyWithIds(Last(h), peer, rib, p) && !NotAnnounced(Last(h), peer, rib, p)
    requires NeverAnnounced(more, peer, rib, p)
    ensures Reaches(h, mid) && OneMinimalBest(RoutesIn(mid, peer, rib), p)
    ensures BestOf(RoutesIn(mid, peer, rib), p, EntryKey(p, elected))
    ensures (exists k :: BestOf(RoutesIn(s, peer, rib), p, k)) <==> Lookup(s, Cell(peer, rib, p, elected)).Some?
    ensures forall k :: BestOf(RoutesIn(s, peer, rib), p, k) ==> k == EntryKey(p, elected)
  {
    hide Reaches, OnlyWithIds, NeverAnnounced, Announces, EntryKey;
    mid := RunTakesAway(h, more, s, peer, rib, p);
    ElectedAfterAddPath(h, mid, peer, rib, p);
    var m, m' := RoutesIn(mid, peer, rib), RoutesIn(s, peer, rib);
    var k :| BestOf(m, p, k);
    StateIsReplay(h, mid);
    elected := m[k].pathId;
    StateIsReplay(h + more, s);
    assert k == EntryKey(p, elected);
    forall j | BestOf(m', p, j) ensures j == k {
      assert BestOf(m, p, j);
    }
    if k in m' {
      EntryKeyInjective(p, elected, m'[k].prefix, m'[k].pathId);
      assert BestOf(m', p, k);
    }
  }

  ghost predicate AllBest(m: Routes, p: Prefix) {
    forall k :: k in m && m[k].prefix == p ==> m[k].isBest
  }

  lemma {:induction false} PlainAnnounceAllBest(t: Tables, rm: Monitoring, routes: seq<Route>, t': Tables, p: Prefix)
    requires KeyedTables(t) && Announce(t, rm, routes, t') && AllBest(RoutesOf(t, rm.rib), p)
    requires forall id :: (p, id) in routes && !rm.Denied(p) ==> id == None
    ensures KeyedTables(t') && AllBest(RoutesOf(t', rm.rib), p)
    decreases |routes|
  {
    hide KeyedTables, Elected;
    if routes != [] {
      var mid :| Announce(t, rm, Front(routes), mid) && AnnounceOne(mid, rm, Last(routes), t');
      var r := Last(routes);
      assert routes == Front(routes) + [r] && r == (r.0, r.1);
      PlainAnnounceAllBest(t, rm, Front(routes), mid, p);
      AnnounceOneFinds(mid, rm, r, t', rm.rib, p, None);
      if r.0 != p || rm.Denied(p) {
        AnnounceOtherPrefix(mid, rm, r, t', p);
      }
    }
  }

  /** Without path ids every route of the prefix is best, in every run. */
  lemma {:induction false} PlainRoutesAreBest(h: seq<Event>, s: State, peer: Addr, rib: RibType, p: Prefix)
    requires Reaches(h, s) && AlwaysAnnounced(h, peer, rib, p, false)
    ensures AllBest(RoutesIn(s, peer, rib), p)
    decreases |h|
  {
    hide Step, Announces, AllBest;
    if h == [] {
      assert AllBest(RoutesIn(s, peer, rib), p) by { EmptyAllBest(p); }
    } else {
      var mid :| Reaches(Front(h), mid) && Step(mid, Last(h), s);
      AlwaysAnnouncedFront(h, peer, rib, p, false);
      PlainRoutesAreBest(Front(h), mid, peer, rib, p);
      StateIsReplay(Front(h), mid);
      PlainStepAllBest(mid, Last(h), s, peer, rib, p);
    }
  }

  lemma EmptyAllBest(p: Prefix)
    ensures AllBest(map[], p)
  {
  }

  lemma PlainStepAllBest(s: State, ev: Event, s': State, peer: Addr, rib: RibType, p: Prefix)
    requires KeyedState(s) && Step(s, ev, s') && AllBest(RoutesIn(s, peer, rib), p)
    requires forall id :: Announces(ev, Cell(peer, rib, p, id)) ==> id == None
    ensures AllBest(RoutesIn(s', peer, rib), p)
  {
    if ev.RouteMonitoring? && ev.rm.peer == peer && ev.rm.rib == rib && !IsEor(ev.rm.update) {
      hide Announce, Withdraw;
      var t := TablesOf(s, peer);
      var w := Withdraw(t, rib, AllWithdrawn(ev.rm.update));
      WithdrawFinds(t, rib, AllWithdrawn(ev.rm.update), rib, p, None);
      WithdrawFewer(t, rib, AllWithdrawn(ev.rm.update), rib);
      forall id | (p, id) in AllAnnounced(ev.rm.update) && !ev.rm.Denied(p) ensures id == None {
        assert Announces(ev, Cell(peer, rib, p, id));
      }
      PlainAnnounceAllBest(w, ev.rm, AllAnnounced(ev.rm.update), s'.ribs[peer], p);
    } else {
      StepTakesAway(s, ev, s', peer, rib, p);
    }
  }

  /** A run that loses it: of two Add-Path routes the preferred one is withdrawn, and the prefix keeps a
      route but has no best one. */
  lemma BestRouteLost(good: Event, poor: Event, gone: Event, s: State)
    requires AnnouncesOnly(good, ("p", Some(1))) && AnnouncesOnly(poor, ("p", Some(2)))
    requires good.rm.update.attributes.localPref == Some(200) && poor.rm.update.attributes.localPref == Some(100)
    requires gone.RouteMonitoring? && !IsEor(gone.rm.update)
    requires AllWithdrawn(gone.rm.update) == [("p", Some(1))] && AllAnnounced(gone.rm.update) == []
    requires good.rm.peer == poor.rm.peer == gone.rm.peer && good.rm.rib == poor.rm.rib == gone.rm.rib
    requires Reaches([good, poor, gone], s)
    ensures Lookup(s, Cell(good.rm.peer, good.rm.rib, "p", Some(2))).Some?
    ensures forall k :: !BestOf(RoutesIn(s, good.rm.peer, good.rm.rib), "p", k)
  {
    hide Reaches, OneMinimalBest, BestOf, Lookup, Replay, Announces, OnlyWithIds, EntryKey;
    var peer, rib := good.rm.peer, good.rm.rib;
    var h, all := [good, poor], [good, poor, gone];
    var c1, c2 := Cell(peer, rib, "p", Some(1)), Cell(peer, rib, "p", Some(2));
    assert h + [gone] == all;
    SecondOnlyWithIds(poor, gone, peer, rib);
    TwoThenWithdrawnReplay(good, poor, gone, peer, rib);
    var mid, elected := BestWhileElectedStored(h, [gone], s, peer, rib, "p");
    FirstIsElected(good, poor, mid, elected);
    StateIsReplay(all, s);
    assert Bare(Lookup(s, c1)) == Replay(all, c1) && Bare(Lookup(s, c2)) == Replay(all, c2);
  }

  lemma SecondOnlyWithIds(poor: Event, gone: Event, peer: Addr, rib: RibType)
    requires AnnouncesOnly(poor, ("p", Some(2))) && peer == poor.rm.peer && rib == poor.rm.rib
    requires gone.RouteMonitoring? && AllAnnounced(gone.rm.update) == []
    ensures OnlyWithIds(poor, peer, rib, "p")
    ensures !NotAnnounced(poor, peer, rib, "p") && NeverAnnounced([gone], peer, rib, "p")
  {
    hide Announces, Replay;
    forall id ensures Announces(poor, Cell(peer, rib, "p", id)) <==> id == Some(2) {
      ReplayAnnouncesOnly([], poor, ("p", Some(2)), Cell(peer, rib, "p", id));
    }
    assert Announces(poor, Cell(peer, rib, "p", Some(2)));
    forall id ensures !Announces(gone, Cell(peer, rib, "p", id)) {
      NoneAnnounced(gone, Cell(peer, rib, "p", id));
    }
  }

  lemma NoneAnnounced(ev: Event, c: Cell)
    requires ev.RouteMonitoring? && AllAnnounced(ev.rm.update) == []
    ensures !Announces(ev, c)
  {
  }

  lemma TwoThenWithdrawnReplay(good: Event, poor: Event, gone: Event, peer: Addr, rib: RibType)
    requires AnnouncesOnly(good, ("p", Some(1))) && AnnouncesOnly(poor, ("p", Some(2)))
    requires gone.RouteMonitoring? && !IsEor(gone.rm.update)
    requires AllWithdrawn(gone.rm.update) == [("p", Some(1))] && AllAnnounced(gone.rm.update) == []
    requires peer == good.rm.peer == poor.rm.peer == gone.rm.peer
    requires rib == good.rm.rib == poor.rm.rib == gone.rm.rib
    ensures var h := [good, poor, gone];
            && Replay(h, Cell(peer, rib, "p", Some(1))) == None
            && Replay(h, Cell(peer, rib, "p", Some(2))).Some?
  {
    var c1, c2 := Cell(peer, rib, "p", Some(1)), Cell(peer, rib, "p", Some(2));
    var h := [good, poor, gone];
    assert Front(h) == [good] + [poor] && Last(h) == gone;
    ReplayAnnouncesOnly([good], poor, ("p", Some(2)), c2);
    NoneAnnounced(gone, c1);
    NoneAnnounced(gone, c2);
    assert Withdraws(gone, c1) && !Withdraws(gone, c2);
  }

  lemma FirstIsElected(good: Event, poor: Event, s: State, elected: Option<U32>)
    requires AnnouncesOnly(good, ("p", Some(1))) && AnnouncesOnly(poor, ("p", Some(2)))
    requires good.rm.update.attributes.localPref == Some(200) && poor.rm.update.attributes.localPref == Some(100)
    requires good.rm.peer == poor.rm.peer && good.rm.rib == poor.rm.rib && Reaches([good, poor], s)
    requires var m := RoutesIn(s, good.rm.peer, good.rm.rib);
             OneMinimalBest(m, "p") && BestOf(m, "p", EntryKey("p", elected))
    ensures elected == Some(1)
  {
    hide Reaches, EntryKey, Replay, Announces;
    var peer, rib := good.rm.peer, good.rm.rib;
    var h := [] + [good] + [poor];
    assert h == [good, poor];
    var c, c1 := Cell(peer, rib, "p", elected), Cell(peer, rib, "p", Some(1));
    StateIsReplay(h, s);
    assert Bare(Lookup(s, c)) == Replay(h, c) && Bare(Lookup(s, c1)) == Replay(h, c1);
    ReplayAnnouncesOnly([], good, ("p", Some(1)), c1);
    ReplayAnnouncesOnly([] + [good], poor, ("p", Some(2)), c1);
    ReplayAnnouncesOnly([], good, ("p", Some(1)), c);
    ReplayAnnouncesOnly([] + [good], poor, ("p", Some(2)), c);
    NothingReplayed(c);
  }

  lemma NothingReplayed(c: Cell)
    ensures Replay([], c) == None
  {
  }
}

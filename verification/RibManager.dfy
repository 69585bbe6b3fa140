/**
 The RIB manager (`crates/rbmp-rib/src/manager.rs`): one message at a time, over all speakers
 and peers.
 */
module RibManager {
  import opened Common
  import opened RibKey
  import opened RouteTable
  import opened RibSession

  // ---------------------------------------------------------------------------
  // Messages
  // ---------------------------------------------------------------------------

  type Route = (Prefix, Option<U32>)

  datatype Update = Update(
    withdrawn: seq<Prefix>,
    withdrawnIds: seq<Option<U32>>,
    attributes: PathAttributes,
    announced: seq<Prefix>,
    announcedIds: seq<Option<U32>>)

  /** Prefixes with their path ids; missing ids are `None`. */
  function Zip(prefixes: seq<Prefix>, ids: seq<Option<U32>>): seq<Route> {
    seq(|prefixes|, i requires 0 <= i < |prefixes| => (prefixes[i], if i < |ids| then ids[i] else None))
  }

  function MultiProtocol(prefixes: Option<seq<Prefix>>): seq<Route> {
    if prefixes.Some? then Zip(prefixes.value, []) else []
  }

  function AllWithdrawn(u: Update): seq<Route> {
    Zip(u.withdrawn, u.withdrawnIds) + MultiProtocol(u.attributes.mpUnreach)
  }

  function AllAnnounced(u: Update): seq<Route> {
    Zip(u.announced, u.announcedIds) + MultiProtocol(u.attributes.mpReach)
  }

  /** End-of-RIB marker. */
  predicate IsEor(u: Update) {
    && u.withdrawn == [] && u.announced == []
    && u.attributes.mpReach == None
    && (u.attributes.mpUnreach.Some? ==> u.attributes.mpUnreach.value == [])
  }

  datatype Verdict = Accept | Deny | Default

  datatype FilterContext = FilterContext(
    prefix: Prefix, peerAs: U32, peer: Addr, rib: RibType, attributes: PathAttributes)

  /** A Route Monitoring message with the filter that is loaded when it arrives. */
  datatype Monitoring = Monitoring(
    peer: Addr, peerAs: U32, rib: RibType, update: Update, now: int, filter: FilterContext -> Verdict)
  {
    predicate Denied(p: Prefix) {
      filter(FilterContext(p, peerAs, peer, rib, update.attributes)) == Deny
    }

    /** The route an accepted announcement stores. */
    function Entry(r: Route): RibEntry {
      RibEntry(r.0, r.1, update.attributes, now, peer, peerAs, true, Normal, None)
    }
  }

  datatype Event =
    | Initiation(speaker: Addr, sysName: Option<string>, sysDescr: Option<string>, now: int)
    | Termination(speaker: Addr)
    | PeerUp(speaker: Addr, peer: Addr, peerAs: U32, localAs: U32, holdTime: U16,
             caps: seq<Capability>, now: int)
    | PeerDown(speaker: Addr, peer: Addr, now: int)
    | RouteMonitoring(speaker: Addr, rm: Monitoring)
    | StatsReport(speaker: Addr)
    | RouteMirroring(speaker: Addr)
    | ExpireStale(peer: Addr, staleSecs: U32, now: int)

  // ---------------------------------------------------------------------------
  // What a message tells the consumers of the RIB
  // ---------------------------------------------------------------------------

  /** An emitted event. A route change names its prefix, not its path id; it announces when it carries
      attributes and withdraws when not. */
  datatype RibEvent =
    | SpeakerUp(speaker: Addr, sysName: Option<string>, sysDescr: Option<string>)
    | SpeakerDown(speaker: Addr)
    | PeerCameUp(speaker: Addr, peer: Addr)
    | PeerWentDown(speaker: Addr, peer: Addr)
    | EndOfRib(speaker: Addr, peer: Addr)
    | RouteChange(speaker: Addr, peer: Addr, rib: RibType, prefix: Prefix, attributes: Option<PathAttributes>)
    | Stats(speaker: Addr)

  function Withdrawals(speaker: Addr, rm: Monitoring, routes: seq<Route>): seq<RibEvent> {
    if routes == [] then []
    else Withdrawals(speaker, rm, Front(routes)) + [RouteChange(speaker, rm.peer, rm.rib, Last(routes).0, None)]
  }

  function Announcements(speaker: Addr, rm: Monitoring, routes: seq<Route>): seq<RibEvent> {
    if routes == [] then []
    else Announcements(speaker, rm, Front(routes))
         + if rm.Denied(Last(routes).0) then []
           else [RouteChange(speaker, rm.peer, rm.rib, Last(routes).0, Some(rm.update.attributes))]
  }

  function Emitted(ev: Event): seq<RibEvent> {
    match ev
    case Initiation(speaker, sysName, sysDescr, _) => [SpeakerUp(speaker, sysName, sysDescr)]
    case Termination(speaker) => [SpeakerDown(speaker)]
    case PeerUp(speaker, peer, _, _, _, _, _) => [PeerCameUp(speaker, peer)]
    case PeerDown(speaker, peer, _) => [PeerWentDown(speaker, peer)]
    case RouteMonitoring(speaker, rm) =>
      if IsEor(rm.update) then [EndOfRib(speaker, rm.peer)]
      else Withdrawals(speaker, rm, AllWithdrawn(rm.update)) + Announcements(speaker, rm, AllAnnounced(rm.update))
    case StatsReport(speaker) => [Stats(speaker)]
    case RouteMirroring(_) => []
    case ExpireStale(_, _, _) => []
  }

  // ---------------------------------------------------------------------------
  // What one event may do to the state
  // ---------------------------------------------------------------------------

  datatype State = State(speakers: map<Addr, Session>, ribs: map<Addr, Tables>)

  const EMPTY_STATE := State(map[], map[])

  function TablesOf(s: State, peer: Addr): Tables {
    if peer in s.ribs then s.ribs[peer] else map[]
  }

  function Withdraw(t: Tables, rib: RibType, routes: seq<Route>): Tables {
    if routes == [] then t
    else Drop(Withdraw(t, rib, Front(routes)), rib, Last(routes).0, Last(routes).1)
  }

  /** One announcement: dropped by the filter, or stored, with an election when it has a path id. */
  ghost predicate AnnounceOne(t: Tables, rm: Monitoring, r: Route, t': Tables) {
    if rm.Denied(r.0) then t' == t
    else
      var put := Put(t, rm.rib, rm.Entry(r));
      if r.1 == None then t' == put
      else rm.rib in t' && t' == put[rm.rib := t'[rm.rib]] && Elected(put[rm.rib], t'[rm.rib], r.0)
  }

  ghost predicate Announce(t: Tables, rm: Monitoring, routes: seq<Route>, t': Tables) {
    if routes == [] then t' == t
    else exists mid :: Announce(t, rm, Front(routes), mid) && AnnounceOne(mid, rm, Last(routes), t')
  }

  function SessionOf(s: State, speaker: Addr, now: int): Session {
    if speaker in s.speakers then s.speakers[speaker] else NewSession(now)
  }

  function PeerOf(session: Session, peer: Addr, peerAs: U32): PeerRecord {
    if peer in session.peers then session.peers[peer] else NewPeer(peerAs)
  }

  predicate LlgrActive(s: State, speaker: Addr, peer: Addr) {
    && speaker in s.speakers
    && peer in s.speakers[speaker].peers
    && s.speakers[speaker].peers[peer].llgrActive
  }

  function DownSpeakers(s: State, speaker: Addr, peer: Addr, now: int): map<Addr, Session> {
    if speaker in s.speakers && peer in s.speakers[speaker].peers then
      var session := s.speakers[speaker];
      s.speakers[speaker := session.(peers := session.peers[peer := WentDown(session.peers[peer], now)])]
    else s.speakers
  }

  function DownRibs(s: State, speaker: Addr, peer: Addr, now: int): map<Addr, Tables> {
    if LlgrActive(s, speaker, peer) then
      if peer in s.ribs then s.ribs[peer := MarkStale(s.ribs[peer], now)] else s.ribs
    else s.ribs[peer := map[]]
  }

  ghost predicate Step(s: State, ev: Event, s': State) {
    match ev
    case Initiation(speaker, sysName, sysDescr, now) =>
      s' == s.(speakers := s.speakers[speaker :=
                 SessionOf(s, speaker, now).(sysName := sysName, sysDescr := sysDescr)])
    case Termination(speaker) =>
      if speaker in s.speakers then
        s' == State(s.speakers - {speaker}, s.ribs - s.speakers[speaker].peers.Keys)
      else s' == s
    case PeerUp(speaker, peer, peerAs, localAs, holdTime, caps, now) =>
      var session := SessionOf(s, speaker, now);
      && speaker in s'.speakers && peer in s'.speakers[speaker].peers
      && var record := s'.speakers[speaker].peers[peer];
      && CameUp(PeerOf(session, peer, peerAs), localAs, holdTime, caps, now, record)
      && s' == s.(speakers := s.speakers[speaker := session.(peers := session.peers[peer := record])])
    case PeerDown(speaker, peer, now) =>
      s' == State(DownSpeakers(s, speaker, peer, now), DownRibs(s, speaker, peer, now))
    case RouteMonitoring(speaker, rm) =>
      if IsEor(rm.update) then s' == s
      else
        && rm.peer in s'.ribs
        && s' == s.(ribs := s.ribs[rm.peer := s'.ribs[rm.peer]])
        && Announce(Withdraw(TablesOf(s, rm.peer), rm.rib, AllWithdrawn(rm.update)),
                    rm, AllAnnounced(rm.update), s'.ribs[rm.peer])
    case StatsReport(_) => s' == s
    case RouteMirroring(_) => s' == s
    case ExpireStale(peer, staleSecs, now) =>
      s' == if peer in s.ribs then s.(ribs := s.ribs[peer := Drain(s.ribs[peer], now, staleSecs)]) else s
  }

  // ---------------------------------------------------------------------------
  // The manager object
  // ---------------------------------------------------------------------------

  /** Tables and peer sessions are owned by value, as in the source; a mutable borrow of one is a
      fresh object that is stored back when the borrow ends. */
  class RibManager {
    var speakers: map<Addr, Session>
    var ribs: map<Addr, Tables>
    var events: seq<RibEvent>

    ghost function View(): State
      reads this
    {
      State(speakers, ribs)
    }

    constructor ()
      ensures View() == EMPTY_STATE && events == []
    {
      speakers, ribs, events := map[], map[], [];
    }

    method ExpireStaleForPeer(peer: Addr, staleSecs: U32, now: int) returns (removed: nat)
      modifies this`ribs
      ensures Step(old(View()), ExpireStale(peer, staleSecs, now), View())
      ensures removed == ExpiredCount(TablesOf(old(View()), peer), now, staleSecs)
    {
      if peer !in ribs {
        NothingExpires(now, staleSecs);
        return 0;
      }
      var rib := new RibTable(ribs[peer]);
      removed := rib.DrainDeletedStale(now, staleSecs);
      ribs := ribs[peer := rib.tables];
    }

    method Process(ev: Event)
      requires !ev.ExpireStale?
      modifies this
      ensures Step(old(View()), ev, View())
      ensures events == old(events) + Emitted(ev)
    {
      match ev {
        case Initiation(speaker, sysName, sysDescr, now) =>
          var session := if speaker in speakers then speakers[speaker] else NewSession(now);
          speakers := speakers[speaker := session.(sysName := sysName, sysDescr := sysDescr)];
          events := events + [SpeakerUp(speaker, sysName, sysDescr)];
        case Termination(speaker) =>
          if speaker in speakers {
            var gone := speakers[speaker];
            speakers := speakers - {speaker};
            RemoveTables(gone.peers.Keys);
          }
          events := events + [SpeakerDown(speaker)];
        case PeerUp(speaker, peer, peerAs, localAs, holdTime, caps, now) =>
          var session := if speaker in speakers then speakers[speaker] else NewSession(now);
          var record := if peer in session.peers then session.peers[peer] else NewPeer(peerAs);
          var borrowed := new PeerSession(record);
          borrowed.OnUp(localAs, holdTime, caps, now);
          speakers := speakers[speaker := session.(peers := session.peers[peer := borrowed.record])];
          events := events + [PeerCameUp(speaker, peer)];
        case PeerDown(speaker, peer, now) =>
          ProcessPeerDown(speaker, peer, now);
        case RouteMonitoring(speaker, rm) =>
          ProcessRoutes(speaker, rm);
        case StatsReport(speaker) =>
          events := events + [Stats(speaker)];
        case RouteMirroring(_) =>
        case ExpireStale(_, _, _) =>
      }
    }

    method RemoveTables(peers: set<Addr>)
      modifies this`ribs
      ensures ribs == old(ribs) - peers
    {
      var todo := peers;
      while todo != {}
        invariant todo <= peers && ribs == old(ribs) - (peers - todo)
        decreases |todo|
      {
        var peer :| peer in todo;
        ribs := ribs - {peer};
        todo := todo - {peer};
      }
      assert peers - {} == peers;
    }

    method ProcessPeerDown(speaker: Addr, peer: Addr, now: int)
      modifies this
      ensures Step(old(View()), PeerDown(speaker, peer, now), View())
      ensures events == old(events) + Emitted(PeerDown(speaker, peer, now))
    {
      var llgr := speaker in speakers && peer in speakers[speaker].peers
                  && speakers[speaker].peers[peer].llgrActive;
      if speaker in speakers && peer in speakers[speaker].peers {
        var session := speakers[speaker];
        var borrowed := new PeerSession(session.peers[peer]);
        borrowed.OnDown(now);
        speakers := speakers[speaker := session.(peers := session.peers[peer := borrowed.record])];
      }
      if llgr {
        if peer in ribs {
          var rib := new RibTable(ribs[peer]);
          rib.MarkStaleAll(now);
          ribs := ribs[peer := rib.tables];
        }
      } else {
        var rib := new RibTable(if peer in ribs then ribs[peer] else map[]);
        rib.ClearAll();
        ribs := ribs[peer := rib.tables];
      }
      events := events + [PeerWentDown(speaker, peer)];
    }

    method ProcessRoutes(speaker: Addr, rm: Monitoring)
      modifies this
      ensures Step(old(View()), RouteMonitoring(speaker, rm), View())
      ensures events == old(events) + Emitted(RouteMonitoring(speaker, rm))
    {
      hide Announce, Withdraw, Withdrawals, Announcements;
      if IsEor(rm.update) {
        events := events + [EndOfRib(speaker, rm.peer)];
        return;
      }
      var rib := new RibTable(if rm.peer in ribs then ribs[rm.peer] else map[]);
      WithdrawAll(rib, speaker, rm, AllWithdrawn(rm.update));
      AnnounceAll(rib, speaker, rm, AllAnnounced(rm.update));
      ribs := ribs[rm.peer := rib.tables];
    }

    method WithdrawAll(rib: RibTable, speaker: Addr, rm: Monitoring, withdrawn: seq<Route>)
      modifies rib, this`events
      ensures rib.tables == Withdraw(old(rib.tables), rm.rib, withdrawn)
      ensures events == old(events) + Withdrawals(speaker, rm, withdrawn)
    {
      hide Drop;
      for i := 0 to |withdrawn|
        invariant rib.tables == Withdraw(old(rib.tables), rm.rib, withdrawn[..i])
        invariant events == old(events) + Withdrawals(speaker, rm, withdrawn[..i])
      {
        assert Front(withdrawn[..i + 1]) == withdrawn[..i];
        var _ := rib.RemoveWithPathId(rm.rib, withdrawn[i].0, withdrawn[i].1);
        events := events + [RouteChange(speaker, rm.peer, rm.rib, withdrawn[i].0, None)];
      }
      assert withdrawn[..|withdrawn|] == withdrawn;
    }

    method AnnounceAll(rib: RibTable, speaker: Addr, rm: Monitoring, announced: seq<Route>)
      modifies rib, this`events
      ensures Announce(old(rib.tables), rm, announced, rib.tables)
      ensures events == old(events) + Announcements(speaker, rm, announced)
    {
      hide AnnounceOne;
      for i := 0 to |announced|
        invariant Announce(old(rib.tables), rm, announced[..i], rib.tables)
        invariant events == old(events) + Announcements(speaker, rm, announced[..i])
      {
        assert Front(announced[..i + 1]) == announced[..i] && Last(announced[..i + 1]) == announced[i];
        AnnounceInto(rib, speaker, rm, announced[i]);
      }
      assert announced[..|announced|] == announced;
    }

    method AnnounceInto(rib: RibTable, speaker: Addr, rm: Monitoring, r: Route)
      modifies rib, this`events
      ensures AnnounceOne(old(rib.tables), rm, r, rib.tables)
      ensures events == old(events) + if rm.Denied(r.0) then []
                        else [RouteChange(speaker, rm.peer, rm.rib, r.0, Some(rm.update.attributes))]
    {
      if rm.filter(FilterContext(r.0, rm.peerAs, rm.peer, rm.rib, rm.update.attributes)) == Deny {
        return;
      }
      var _ := rib.Insert(rm.rib, rm.Entry(r));
      if r.1.Some? {
        rib.RecomputeBestPath(rm.rib, r.0);
      }
      events := events + [RouteChange(speaker, rm.peer, rm.rib, r.0, Some(rm.update.attributes))];
    }
  }
}

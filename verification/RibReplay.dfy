/**
 Whole runs of the RIB manager against a replay of the message history.

 A history is any sequence of events, with any filter at each Route Monitoring message; `Reaches`
 relates it to every state the manager can be in afterwards. The replay looks at one cell (peer, RIB
 type, prefix, path id) at a time and knows nothing of tables, keys or sessions.
 */
module RibReplay {
  import opened Common
  import opened RibKey
  import opened RouteTable
  import opened RouteTableLaws
  import opened RibSession
  import opened RibManager

  ghost predicate Reaches(h: seq<Event>, s: State) {
    if h == [] then s == EMPTY_STATE
    else exists mid :: Reaches(Front(h), mid) && Step(mid, Last(h), s)
  }

  datatype Cell = Cell(peer: Addr, rib: RibType, prefix: Prefix, id: Option<U32>)

  // ---------------------------------------------------------------------------
  // The reference: replaying the history of one cell
  // ---------------------------------------------------------------------------

  /** The capabilities of the last Peer Up of `peer` on the current session of `speaker`. */
  ghost function LastUp(h: seq<Event>, speaker: Addr, peer: Addr): Option<seq<Capability>> {
    if h == [] then None
    else
      match Last(h)
      case Termination(sp) => if sp == speaker then None else LastUp(Front(h), speaker, peer)
      case PeerUp(sp, p, _, _, _, caps, _) =>
        if sp == speaker && p == peer then Some(caps) else LastUp(Front(h), speaker, peer)
      case _ => LastUp(Front(h), speaker, peer)
  }

  /** The capabilities negotiate a non-zero LLGR stale time. */
  ghost predicate LongLived(caps: seq<Capability>) {
    exists secs: U32 :: secs > 0 && NegotiatedStaleTime(caps, secs)
  }

  ghost predicate LongLivedAt(h: seq<Event>, speaker: Addr, peer: Addr) {
    LastUp(h, speaker, peer).Some? && LongLived(LastUp(h, speaker, peer).value)
  }

  /** The event concerns the peer and RIB of the cell and carries routes. */
  ghost predicate Monitors(ev: Event, c: Cell) {
    ev.RouteMonitoring? && ev.rm.peer == c.peer && ev.rm.rib == c.rib && !IsEor(ev.rm.update)
  }

  /** The event announces the cell and the filter lets it through. */
  ghost predicate Announces(ev: Event, c: Cell) {
    Monitors(ev, c) && (c.prefix, c.id) in AllAnnounced(ev.rm.update) && !ev.rm.Denied(c.prefix)
  }

  ghost predicate Withdraws(ev: Event, c: Cell) {
    Monitors(ev, c) && (c.prefix, c.id) in AllWithdrawn(ev.rm.update) && !Announces(ev, c)
  }

  /** What the cell holds after `ev`, when it held `prev` after `h`. */
  ghost function CellAfter(h: seq<Event>, prev: Option<RibEntry>, ev: Event, c: Cell): Option<RibEntry> {
    if Announces(ev, c) then Some(ev.rm.Entry((c.prefix, c.id)))
    else if Withdraws(ev, c) then None
    else
      match ev
      case PeerDown(speaker, peer, now) =>
        if peer != c.peer then prev
        else if !LongLivedAt(h, speaker, peer) then None
        else if prev.Some? then Some(Stale(prev.value, now)) else None
      case Termination(speaker) => if LastUp(h, speaker, c.peer).Some? then None else prev
      case ExpireStale(peer, secs, now) =>
        if peer == c.peer && prev.Some? && Expired(prev.value, now, secs) then None else prev
      case _ => prev
  }

  ghost function Replay(h: seq<Event>, c: Cell): Option<RibEntry> {
    if h == [] then None else CellAfter(Front(h), Replay(Front(h), c), Last(h), c)
  }

  // ---------------------------------------------------------------------------
  // Looking a cell up in a state
  // ---------------------------------------------------------------------------

  ghost function Find(t: Tables, rib: RibType, p: Prefix, id: Option<U32>): Option<RibEntry> {
    var m := RoutesOf(t, rib);
    if EntryKey(p, id) in m then Some(m[EntryKey(p, id)]) else None
  }

  ghost function Lookup(s: State, c: Cell): Option<RibEntry> {
    Find(TablesOf(s, c.peer), c.rib, c.prefix, c.id)
  }

  /** An entry without its best flag, which is elected and not replayed. */
  ghost function Bare(e: Option<RibEntry>): Option<RibEntry> {
    if e.Some? then Some(e.value.(isBest := true)) else None
  }

  ghost predicate KeyedTables(t: Tables) {
    forall r :: r in t ==> Keyed(t[r])
  }

  ghost predicate KeyedState(s: State) {
    forall peer :: peer in s.ribs ==> KeyedTables(s.ribs[peer])
  }

  ghost predicate Knows(s: State, speaker: Addr, peer: Addr) {
    speaker in s.speakers && peer in s.speakers[speaker].peers
  }

  /** The session table says what the history of Peer Up and Termination says. */
  ghost predicate SessionsMatch(h: seq<Event>, s: State) {
    forall speaker, peer ::
      && (Knows(s, speaker, peer) <==> LastUp(h, speaker, peer).Some?)
      && (LlgrActive(s, speaker, peer) <==> LongLivedAt(h, speaker, peer))
  }

  ghost predicate CellsMatch(h: seq<Event>, s: State) {
    forall c :: Bare(Lookup(s, c)) == Replay(h, c)
  }

  // ---------------------------------------------------------------------------
  // One event, table by table
  // ---------------------------------------------------------------------------

  lemma DropFinds(t: Tables, rib: RibType, r: Route, rib': RibType, p: Prefix, id: Option<U32>)
    ensures Find(Drop(t, rib, r.0, r.1), rib', p, id)
            == if rib == rib' && r == (p, id) then None else Find(t, rib', p, id)
  {
    if EntryKey(r.0, r.1) == EntryKey(p, id) {
      EntryKeyInjective(r.0, r.1, p, id);
    }
  }

  lemma {:induction false} WithdrawFinds(t: Tables, rib: RibType, routes: seq<Route>, rib': RibType,
                                         p: Prefix, id: Option<U32>)
    requires KeyedTables(t)
    ensures KeyedTables(Withdraw(t, rib, routes))
    ensures Find(Withdraw(t, rib, routes), rib', p, id)
            == if rib == rib' && (p, id) in routes then None else Find(t, rib', p, id)
  {
    if routes != [] {
      WithdrawFinds(t, rib, Front(routes), rib', p, id);
      DropFinds(Withdraw(t, rib, Front(routes)), rib, Last(routes), rib', p, id);
      assert routes == Front(routes) + [Last(routes)];
    }
  }

  lemma PutFinds(t: Tables, rib: RibType, e: RibEntry, rib': RibType, p: Prefix, id: Option<U32>)
    ensures Find(Put(t, rib, e), rib', p, id)
            == if rib == rib' && (e.prefix, e.pathId) == (p, id) then Some(e) else Find(t, rib', p, id)
  {
    if EntryKey(e.prefix, e.pathId) == EntryKey(p, id) {
      EntryKeyInjective(e.prefix, e.pathId, p, id);
    }
  }

  lemma AnnounceOneFinds(t: Tables, rm: Monitoring, r: Route, t': Tables, rib: RibType,
                         p: Prefix, id: Option<U32>)
    requires KeyedTables(t) && AnnounceOne(t, rm, r, t')
    ensures KeyedTables(t')
    ensures Bare(Find(t', rib, p, id))
            == if rib == rm.rib && r == (p, id) && !rm.Denied(p) then Some(rm.Entry(r))
               else Bare(Find(t, rib, p, id))
  {
    hide Elected, EntryKey;
    if !rm.Denied(r.0) {
      var put := Put(t, rm.rib, rm.Entry(r));
      PutFinds(t, rm.rib, rm.Entry(r), rib, p, id);
      assert KeyedTables(put);
      if r.1.Some? {
        ElectionKeepsKeys(put[rm.rib], t'[rm.rib], r.0);
        ElectionFinds(put, rm.rib, t', rib, p, id);
      }
    }
  }

  /** Two tables that differ in best flags of one RIB only find the same bare routes. */
  lemma ElectionFinds(t: Tables, elected: RibType, t': Tables, rib: RibType, p: Prefix, id: Option<U32>)
    requires elected in t && elected in t' && t' == t[elected := t'[elected]]
    requires t'[elected].Keys == t[elected].Keys
    requires forall k :: k in t[elected] ==> t'[elected][k] == t[elected][k].(isBest := t'[elected][k].isBest)
    ensures Bare(Find(t', rib, p, id)) == Bare(Find(t, rib, p, id))
  {
    hide EntryKey;
  }

  lemma {:induction false} AnnounceFinds(t: Tables, rm: Monitoring, routes: seq<Route>, t': Tables,
                                         rib: RibType, p: Prefix, id: Option<U32>)
    requires KeyedTables(t) && Announce(t, rm, routes, t')
    ensures KeyedTables(t')
    ensures Bare(Find(t', rib, p, id))
            == if rib == rm.rib && (p, id) in routes && !rm.Denied(p) then Some(rm.Entry((p, id)))
               else Bare(Find(t, rib, p, id))
    decreases |routes|
  {
    hide AnnounceOne, Find, Bare, KeyedTables;
    if routes != [] {
      var mid :| Announce(t, rm, Front(routes), mid) && AnnounceOne(mid, rm, Last(routes), t');
      AnnounceFinds(t, rm, Front(routes), mid, rib, p, id);
      AnnounceOneFinds(mid, rm, Last(routes), t', rib, p, id);
      assert routes == Front(routes) + [Last(routes)];
    }
  }

  // ---------------------------------------------------------------------------
  // One event, whole state
  // ---------------------------------------------------------------------------

  lemma StepKeepsKeys(s: State, ev: Event, s': State)
    requires KeyedState(s) && Step(s, ev, s')
    ensures KeyedState(s')
  {
    if ev.RouteMonitoring? && !IsEor(ev.rm.update) {
      var t := TablesOf(s, ev.rm.peer);
      var w := Withdraw(t, ev.rm.rib, AllWithdrawn(ev.rm.update));
      WithdrawFinds(t, ev.rm.rib, AllWithdrawn(ev.rm.update), ev.rm.rib, "", None);
      AnnounceFinds(w, ev.rm, AllAnnounced(ev.rm.update), s'.ribs[ev.rm.peer], ev.rm.rib, "", None);
    }
  }

  lemma LongLivedIff(caps: seq<Capability>, secs: U32)
    requires NegotiatedStaleTime(caps, secs)
    ensures LongLived(caps) <==> secs > 0
  {
    if LongLived(caps) {
      var other: U32 :| other > 0 && NegotiatedStaleTime(caps, other);
      NegotiatedStaleTimeUnique(caps, secs, other);
    }
  }

  lemma StepSessions(h: seq<Event>, s: State, ev: Event, s': State)
    requires SessionsMatch(h, s) && Step(s, ev, s')
    ensures SessionsMatch(h + [ev], s')
  {
    assert Front(h + [ev]) == h && Last(h + [ev]) == ev;
    if ev.PeerUp? {
      LongLivedIff(ev.caps, s'.speakers[ev.speaker].peers[ev.peer].llgrStaleSecs);
    }
    forall speaker, peer
      ensures Knows(s', speaker, peer) <==> LastUp(h + [ev], speaker, peer).Some?
      ensures LlgrActive(s', speaker, peer) <==> LongLivedAt(h + [ev], speaker, peer)
    {
      assert Knows(s, speaker, peer) <==> LastUp(h, speaker, peer).Some?;
      assert LlgrActive(s, speaker, peer) <==> LongLivedAt(h, speaker, peer);
    }
  }

  lemma RoutesStepCell(s: State, ev: Event, s': State, c: Cell)
    requires ev.RouteMonitoring? && KeyedState(s) && Step(s, ev, s')
    ensures Bare(Lookup(s', c))
            == if Announces(ev, c) then Some(ev.rm.Entry((c.prefix, c.id)))
               else if Withdraws(ev, c) then None
               else Bare(Lookup(s, c))
  {
    if ev.rm.peer == c.peer && !IsEor(ev.rm.update) {
      var t := TablesOf(s, c.peer);
      var w := Withdraw(t, ev.rm.rib, AllWithdrawn(ev.rm.update));
      WithdrawFinds(t, ev.rm.rib, AllWithdrawn(ev.rm.update), c.rib, c.prefix, c.id);
      AnnounceFinds(w, ev.rm, AllAnnounced(ev.rm.update), s'.ribs[c.peer], c.rib, c.prefix, c.id);
    }
  }

  lemma TerminationCell(h: seq<Event>, s: State, ev: Event, s': State, c: Cell)
    requires ev.Termination? && SessionsMatch(h, s) && Step(s, ev, s')
    ensures Bare(Lookup(s', c)) == CellAfter(h, Bare(Lookup(s, c)), ev, c)
  {
    hide Find, Bare, LastUp, LongLivedAt;
    assert Knows(s, ev.speaker, c.peer) <==> LastUp(h, ev.speaker, c.peer).Some?;
    if Knows(s, ev.speaker, c.peer) {
      EmptyFinds(c);
    }
  }

  lemma EmptyFinds(c: Cell)
    ensures Bare(Find(map[], c.rib, c.prefix, c.id)) == None
  {
  }

  lemma DownCell(h: seq<Event>, s: State, ev: Event, s': State, c: Cell)
    requires ev.PeerDown? && SessionsMatch(h, s) && Step(s, ev, s')
    ensures Bare(Lookup(s', c)) == CellAfter(h, Bare(Lookup(s, c)), ev, c)
  {
    hide Find, Bare, LastUp, LongLivedAt, EntryKey;
    assert LlgrActive(s, ev.speaker, ev.peer) <==> LongLivedAt(h, ev.speaker, ev.peer);
    EmptyFinds(c);
    MarkStaleFinds(TablesOf(s, ev.peer), ev.now, c);
  }

  lemma MarkStaleFinds(t: Tables, at: int, c: Cell)
    ensures var prev := Bare(Find(t, c.rib, c.prefix, c.id));
            Bare(Find(MarkStale(t, at), c.rib, c.prefix, c.id))
            == if prev.Some? then Some(Stale(prev.value, at)) else None
  {
    hide EntryKey;
  }

  lemma ExpireCell(h: seq<Event>, s: State, ev: Event, s': State, c: Cell)
    requires ev.ExpireStale? && Step(s, ev, s')
    ensures Bare(Lookup(s', c)) == CellAfter(h, Bare(Lookup(s, c)), ev, c)
  {
    hide Find, Bare, LastUp, LongLivedAt, EntryKey, Expired;
    EmptyFinds(c);
    DrainFinds(TablesOf(s, ev.peer), ev.now, ev.staleSecs, c);
  }

  lemma DrainFinds(t: Tables, now: int, staleSecs: U32, c: Cell)
    ensures var prev := Bare(Find(t, c.rib, c.prefix, c.id));
            Bare(Find(Drain(t, now, staleSecs), c.rib, c.prefix, c.id))
            == if prev.Some? && Expired(prev.value, now, staleSecs) then None else prev
  {
    hide EntryKey;
  }

  lemma StepCell(h: seq<Event>, s: State, ev: Event, s': State, c: Cell)
    requires KeyedState(s) && SessionsMatch(h, s) && Step(s, ev, s')
    requires Bare(Lookup(s, c)) == Replay(h, c)
    ensures Bare(Lookup(s', c)) == Replay(h + [ev], c)
  {
    hide SessionsMatch, LastUp, LongLivedAt, Find, Bare, KeyedState;
    assert Front(h + [ev]) == h && Last(h + [ev]) == ev;
    match ev {
      case RouteMonitoring(_, _) => RoutesStepCell(s, ev, s', c);
      case Termination(_) => TerminationCell(h, s, ev, s', c);
      case PeerDown(_, _, _) => DownCell(h, s, ev, s', c);
      case ExpireStale(_, _, _) => ExpireCell(h, s, ev, s', c);
      case _ =>
    }
  }

  /** After any history and any filters, every cell of every reachable state holds what the replay
      of the history says, and the sessions and keys are what the history makes them. */
  lemma {:induction false} StateIsReplay(h: seq<Event>, s: State)
    requires Reaches(h, s)
    ensures KeyedState(s) && SessionsMatch(h, s) && CellsMatch(h, s)
    decreases |h|
  {
    if h != [] {
      var mid :| Reaches(Front(h), mid) && Step(mid, Last(h), s);
      StateIsReplay(Front(h), mid);
      assert h == Front(h) + [Last(h)];
      StepKeepsKeys(mid, Last(h), s);
      StepSessions(Front(h), mid, Last(h), s);
      forall c ensures Bare(Lookup(s, c)) == Replay(h, c) {
        StepCell(Front(h), mid, Last(h), s, c);
      }
    }
  }

  // ---------------------------------------------------------------------------
  // The replay, read as "the last writer wins"
  // ---------------------------------------------------------------------------

  /** When the route announced at `i` was first marked stale, up to event `n`. */
  ghost function FirstStale(h: seq<Event>, i: nat, n: nat, peer: Addr): Option<int>
    requires i < n <= |h|
  {
    if n == i + 1 then None
    else
      var before := FirstStale(h, i, n - 1, peer);
      var ev := h[n - 1];
      if before == None && ev.PeerDown? && ev.peer == peer && LongLivedAt(h[..n - 1], ev.speaker, peer)
      then Some(ev.now) else before
  }

  /** Event `j` ends the route that event `i` announced for the cell. */
  ghost predicate Ends(h: seq<Event>, i: nat, j: nat, c: Cell)
    requires i < j < |h|
  {
    match h[j]
    case RouteMonitoring(_, _) => Announces(h[j], c) || Withdraws(h[j], c)
    case PeerDown(speaker, peer, _) => peer == c.peer && !LongLivedAt(h[..j], speaker, peer)
    case Termination(speaker) => LastUp(h[..j], speaker, c.peer).Some?
    case ExpireStale(peer, secs, now) =>
      && peer == c.peer
      && FirstStale(h, i, j, c.peer).Some?
      && NumSeconds(now - FirstStale(h, i, j, c.peer).value) >= secs
    case _ => false
  }

  /** Event `i` is the last accepted announcement of the cell and nothing ended its route before `n`. */
  ghost predicate LastWriter(h: seq<Event>, i: nat, n: nat, c: Cell)
    requires n <= |h|
  {
    i < n && Announces(h[i], c) && forall j :: i < j < n ==> !Ends(h, i, j, c)
  }

  /** The route that event `i` announced, as it stands after event `n`. */
  ghost function Written(h: seq<Event>, i: nat, n: nat, c: Cell): RibEntry
    requires i < n <= |h| && Announces(h[i], c)
  {
    var e := h[i].rm.Entry((c.prefix, c.id));
    match FirstStale(h, i, n, c.peer)
    case Some(at) => e.(llgr := StaleMarked, staleAt := Some(at))
    case None => e
  }

  lemma {:induction false} PrefixReplay(h: seq<Event>, n: nat, c: Cell)
    requires 0 < n <= |h|
    ensures Replay(h[..n], c) == CellAfter(h[..n - 1], Replay(h[..n - 1], c), h[n - 1], c)
  {
    assert Front(h[..n]) == h[..n - 1] && Last(h[..n]) == h[n - 1];
  }

  /** A cell holds a route exactly when some event is its last writer, and then the route is the one
      that event announced, stale since the first LLGR Peer Down that followed. */
  lemma {:induction false} LastWriterWins(h: seq<Event>, n: nat, c: Cell)
    requires n <= |h|
    ensures Replay(h[..n], c).Some? <==> exists i: nat :: LastWriter(h, i, n, c)
    ensures forall i: nat :: LastWriter(h, i, n, c) ==> Replay(h[..n], c) == Some(Written(h, i, n, c))
  {
    hide CellAfter, Ends, Written, FirstStale, Announces, Replay;
    if n == 0 {
      assert Replay(h[..0], c) == None by { EmptyReplay(h, c); }
    } else {
      var m := n - 1;
      PrefixReplay(h, n, c);
      LastWriterWins(h, m, c);
      FreshlyWritten(h, n, Replay(h[..m], c), c);
      if Announces(h[m], c) {
        assert LastWriter(h, m, n, c);
        forall i: nat | LastWriter(h, i, n, c) ensures i == m {
          LastWriterUnique(h, i, m, n, c);
        }
      } else {
        forall i: nat
          ensures LastWriter(h, i, n, c) <==> LastWriter(h, i, m, c) && !Ends(h, i, m, c)
        {
        }
        if i: nat :| LastWriter(h, i, m, c) {
          WrittenStep(h, i, n, c);
          forall j: nat | LastWriter(h, j, m, c) ensures j == i {
            LastWriterUnique(h, i, j, m, c);
          }
        }
      }
    }
  }

  lemma EmptyReplay(h: seq<Event>, c: Cell)
    ensures Replay(h[..0], c) == None
  {
  }

  lemma FreshlyWritten(h: seq<Event>, n: nat, prev: Option<RibEntry>, c: Cell)
    requires 0 < n <= |h|
    ensures Announces(h[n - 1], c) ==>
              CellAfter(h[..n - 1], prev, h[n - 1], c) == Some(Written(h, n - 1, n, c))
    ensures !Announces(h[n - 1], c) ==> CellAfter(h[..n - 1], None, h[n - 1], c) == None
  {
  }

  lemma LastWriterUnique(h: seq<Event>, i: nat, j: nat, n: nat, c: Cell)
    requires n <= |h| && LastWriter(h, i, n, c) && LastWriter(h, j, n, c)
    ensures i == j
  {
    assert i < j ==> Ends(h, i, j, c);
    assert j < i ==> Ends(h, j, i, c);
  }

  lemma WrittenStep(h: seq<Event>, i: nat, n: nat, c: Cell)
    requires i + 1 < n <= |h| && Announces(h[i], c) && !Announces(h[n - 1], c)
    ensures CellAfter(h[..n - 1], Some(Written(h, i, n - 1, c)), h[n - 1], c)
            == if Ends(h, i, n - 1, c) then None else Some(Written(h, i, n, c))
  {
  }
}

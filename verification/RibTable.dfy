/** Compound keys of the route table (`entry_key` in `crates/rbmp-rib/src/table.rs`). */
module RibKey {
  import opened Common

  /** A prefix, given by its printed text: the table never looks at anything else.
      No printed prefix contains '@'. */
  type Prefix = s: string | '@' !in s witness ""

  function Digit(d: nat): char
    requires d < 10
  {
    (48 + d) as char
  }

  function Decimal(n: nat): (s: string)
    ensures |s| > 0
  {
    if n < 10 then [Digit(n)] else Decimal(n / 10) + [Digit(n % 10)]
  }

  function EntryKey(prefix: Prefix, pathId: Option<U32>): string {
    match pathId
    case Some(id) => prefix + "@" + Decimal(id)
    case None => prefix
  }

  predicate StartsWith(s: string, start: string) {
    start <= s
  }

  /** The filter of the best-path scan: the plain key, or a key that starts with `prefix@`. */
  predicate Scanned(key: string, prefix: Prefix) {
    key == prefix || StartsWith(key, prefix + "@")
  }

  lemma {:induction false} DecimalInjective(m: nat, n: nat)
    requires Decimal(m) == Decimal(n)
    ensures m == n
  {
    assert Decimal(m)[|Decimal(m)| - 1] == Digit(m % 10);
    assert Decimal(n)[|Decimal(n)| - 1] == Digit(n % 10);
    assert m % 10 == n % 10;
    if m >= 10 && n >= 10 {
      var cut := |Decimal(m)| - 1;
      assert Decimal(m)[..cut] == Decimal(m / 10);
      assert Decimal(n)[..cut] == Decimal(n / 10);
      DecimalInjective(m / 10, n / 10);
    }
  }

  /** The first '@' of `p@...` sits right after `p`, because no prefix contains '@'. */
  lemma FirstAt(p: Prefix, a: string)
    ensures (p + "@" + a)[|p|] == '@'
    ensures forall k :: 0 <= k < |p| ==> (p + "@" + a)[k] != '@'
    ensures (p + "@" + a)[..|p|] == p && (p + "@" + a)[|p| + 1..] == a
  {
  }

  lemma SplitAtUnique(p: Prefix, q: Prefix, a: string, b: string)
    requires p + "@" + a == q + "@" + b
    ensures p == q && a == b
  {
    FirstAt(p, a);
    FirstAt(q, b);
    assert |p| == |q|;
  }

  /** Only Add-Path keys contain '@'. */
  lemma AtMeansPathId(p: Prefix, i: Option<U32>)
    ensures '@' in EntryKey(p, i) <==> i.Some?
  {
  }

  lemma EntryKeyInjective(p: Prefix, i: Option<U32>, q: Prefix, j: Option<U32>)
    requires EntryKey(p, i) == EntryKey(q, j)
    ensures p == q && i == j
  {
    AtMeansPathId(p, i);
    AtMeansPathId(q, j);
    if i.Some? {
      SplitAtUnique(p, q, Decimal(i.value), Decimal(j.value));
      DecimalInjective(i.value, j.value);
    }
  }

  /** The string scan touches exactly the keys of that prefix. */
  lemma ScannedIffSamePrefix(p: Prefix, q: Prefix, j: Option<U32>)
    ensures Scanned(EntryKey(q, j), p) <==> p == q
  {
    var key := EntryKey(q, j);
    AtMeansPathId(q, j);
    if p == q && j.Some? {
      assert key == (p + "@") + Decimal(j.value);
    }
    if StartsWith(key, p + "@") {
      var rest := key[|p| + 1..];
      assert key == p + "@" + rest;
      FirstAt(p, rest);
      assert key[|p|] in key;
      SplitAtUnique(p, q, rest, Decimal(j.value));
    }
  }
}

/**
 The per-peer route table (`crates/rbmp-rib/src/table.rs`): routes by RIB type and compound key,
 best-path election, and long-lived graceful restart (LLGR) staleness.
 */
module RouteTable {
  import opened Common
  import opened RibKey
  import AsPath

  type Addr = string

  datatype RibType =
    | AdjRibInPrePolicy
    | AdjRibInPostPolicy
    | AdjRibOutPrePolicy
    | AdjRibOutPostPolicy
    | LocRib
    | LocRibFiltered

  datatype LlgrState = Normal | StaleMarked | Deleted

  /** The attributes the table and the manager look at; `other` stands for all the rest. */
  datatype PathAttributes = PathAttributes(
    localPref: Option<U32>,
    asPath: Option<AsPath.Path>,
    med: Option<U32>,
    mpReach: Option<seq<Prefix>>,
    mpUnreach: Option<seq<Prefix>>,
    other: seq<Byte>)

  datatype RibEntry = RibEntry(
    prefix: Prefix,
    pathId: Option<U32>,
    attributes: PathAttributes,
    receivedAt: int,
    peerAddr: Addr,
    peerAs: U32,
    isBest: bool,
    llgr: LlgrState,
    staleAt: Option<int>)

  type Routes = map<string, RibEntry>
  type Tables = map<RibType, Routes>

  function RoutesOf(t: Tables, rib: RibType): Routes {
    if rib in t then t[rib] else map[]
  }

  // ---------------------------------------------------------------------------
  // Best path
  // ---------------------------------------------------------------------------

  /** Lower is better: complement of LOCAL_PREF, AS hops, MED; an absent LOCAL_PREF or MED
      counts as the worst value, an absent AS_PATH as no hops. */
  datatype Rank = Rank(lp: int, hops: int, med: int)

  function RankOf(e: RibEntry): Rank {
    Rank(
      if e.attributes.localPref.Some? then U32_MAX - e.attributes.localPref.value else U32_MAX,
      if e.attributes.asPath.Some? then AsPath.HopCount(e.attributes.asPath.value) % 0x1_0000_0000 else 0,
      if e.attributes.med.Some? then e.attributes.med.value else U32_MAX)
  }

  predicate RankLe(a: Rank, b: Rank) {
    || a.lp < b.lp
    || (a.lp == b.lp && a.hops < b.hops)
    || (a.lp == b.lp && a.hops == b.hops && a.med <= b.med)
  }

  function MarkBest(m: Routes, p: Prefix, best: string): Routes {
    map k | k in m :: if Scanned(k, p) then m[k].(isBest := k == best) else m[k]
  }

  /** `best` is one of the keys the scan of `p` finds with the least rank. */
  ghost predicate Minimal(m: Routes, p: Prefix, best: string) {
    && best in m
    && Scanned(best, p)
    && forall k :: k in m && Scanned(k, p) ==> RankLe(RankOf(m[best]), RankOf(m[k]))
  }

  /** The result of an election: some minimal route of the prefix alone is best. Which one, among
      equals, depends on the order in which a hash map lists its keys. */
  ghost predicate Elected(m: Routes, m': Routes, p: Prefix) {
    if forall k :: k in m ==> !Scanned(k, p) then m' == m
    else exists best :: Minimal(m, p, best) && m' == MarkBest(m, p, best)
  }

  // ---------------------------------------------------------------------------
  // LLGR staleness
  // ---------------------------------------------------------------------------

  /** Times are nanoseconds. */
  const SECOND: int := 1_000_000_000

  /** Whole seconds of a duration, truncated toward zero. */
  function NumSeconds(d: int): int {
    if d >= 0 then d / SECOND else -((-d) / SECOND)
  }

  function Stale(e: RibEntry, at: int): RibEntry {
    if e.llgr == Normal then e.(llgr := StaleMarked, staleAt := Some(at)) else e
  }

  predicate Expired(e: RibEntry, now: int, staleSecs: U32) {
    e.llgr == StaleMarked && e.staleAt.Some? && NumSeconds(now - e.staleAt.value) >= staleSecs
  }

  function MarkStaleRoutes(m: Routes, at: int): Routes {
    map k | k in m :: Stale(m[k], at)
  }

  function MarkStale(t: Tables, at: int): Tables {
    map r | r in t :: MarkStaleRoutes(t[r], at)
  }

  function DrainRoutes(m: Routes, now: int, staleSecs: U32): Routes {
    map k | k in m && !Expired(m[k], now, staleSecs) :: m[k]
  }

  function Drain(t: Tables, now: int, staleSecs: U32): Tables {
    map r | r in t :: DrainRoutes(t[r], now, staleSecs)
  }

  function Count(t: Tables, rib: RibType): nat {
    |RoutesOf(t, rib)|
  }

  /** Routes held over all RIB types. */
  function Total(t: Tables): nat {
    Count(t, AdjRibInPrePolicy) + Count(t, AdjRibInPostPolicy) + Count(t, AdjRibOutPrePolicy)
    + Count(t, AdjRibOutPostPolicy) + Count(t, LocRib) + Count(t, LocRibFiltered)
  }

  function ExpiredKeys(m: Routes, now: int, staleSecs: U32): set<string> {
    set k | k in m && Expired(m[k], now, staleSecs)
  }

  function ExpiredIn(t: Tables, rib: RibType, now: int, staleSecs: U32): nat {
    |ExpiredKeys(RoutesOf(t, rib), now, staleSecs)|
  }

  /** Expired routes over all RIB types. */
  function ExpiredCount(t: Tables, now: int, staleSecs: U32): nat {
    ExpiredIn(t, AdjRibInPrePolicy, now, staleSecs) + ExpiredIn(t, AdjRibInPostPolicy, now, staleSecs)
    + ExpiredIn(t, AdjRibOutPrePolicy, now, staleSecs) + ExpiredIn(t, AdjRibOutPostPolicy, now, staleSecs)
    + ExpiredIn(t, LocRib, now, staleSecs) + ExpiredIn(t, LocRibFiltered, now, staleSecs)
  }

  // ---------------------------------------------------------------------------
  // Insert and remove
  // ---------------------------------------------------------------------------

  function Put(t: Tables, rib: RibType, e: RibEntry): Tables {
    t[rib := RoutesOf(t, rib)[EntryKey(e.prefix, e.pathId) := e]]
  }

  function Drop(t: Tables, rib: RibType, p: Prefix, id: Option<U32>): Tables {
    if rib in t then t[rib := t[rib] - {EntryKey(p, id)}] else t
  }

  // ---------------------------------------------------------------------------
  // The table object
  // ---------------------------------------------------------------------------

  class RibTable {
    var tables: Tables

    constructor (tables: Tables)
      ensures this.tables == tables
    {
      this.tables := tables;
    }

    method Insert(rib: RibType, entry: RibEntry) returns (isNew: bool)
      modifies this
      ensures tables == Put(old(tables), rib, entry)
      ensures Count(tables, rib) == Count(old(tables), rib) + if isNew then 1 else 0
    {
      var key := EntryKey(entry.prefix, entry.pathId);
      var table := RoutesOf(tables, rib);
      isNew := key !in table;
      PutCount(table, key, entry);
      tables := tables[rib := table[key := entry]];
    }

    method RemoveWithPathId(rib: RibType, prefix: Prefix, pathId: Option<U32>)
      returns (removed: Option<RibEntry>)
      modifies this
      ensures tables == Drop(old(tables), rib, prefix, pathId)
      ensures var m := RoutesOf(old(tables), rib);
              var key := EntryKey(prefix, pathId);
              removed == if key in m then Some(m[key]) else None
    {
      var key := EntryKey(prefix, pathId);
      if rib !in tables {
        return None;
      }
      var table := tables[rib];
      removed := if key in table then Some(table[key]) else None;
      tables := tables[rib := table - {key}];
    }

    method RecomputeBestPath(rib: RibType, prefix: Prefix)
      modifies this
      ensures rib !in old(tables) ==> tables == old(tables)
      ensures rib in old(tables) ==>
                && rib in tables
                && tables == old(tables)[rib := tables[rib]]
                && Elected(old(tables)[rib], tables[rib], prefix)
    {
      if rib !in tables {
        return;
      }
      var table := tables[rib];
      var keys := MatchingKeys(table, prefix);
      if |keys| <= 1 {
        if |keys| == 1 {
          ghost var best := keys[0];
          assert forall k :: k in table && Scanned(k, prefix) ==> k == best;
          assert Minimal(table, prefix, best);
          table := table[keys[0] := table[keys[0]].(isBest := true)];
          assert table == MarkBest(old(tables)[rib], prefix, best);
        }
        tables := tables[rib := table];
        return;
      }
      var best := MinByRank(table, keys);
      assert best in keys;
      assert Minimal(table, prefix, best);
      table := FlagKeys(table, keys, best);
      assert table == MarkBest(old(tables)[rib], prefix, best);
      tables := tables[rib := table];
    }

    method MarkStaleAll(at: int)
      modifies this
      ensures tables == MarkStale(old(tables), at)
    {
      var todo := tables.Keys;
      while todo != {}
        invariant todo <= old(tables).Keys == tables.Keys
        invariant forall r :: r in tables ==>
                    tables[r] == if r in todo then old(tables)[r] else MarkStaleRoutes(old(tables)[r], at)
        decreases |todo|
      {
        var r :| r in todo;
        var marked := MarkOne(tables[r], at);
        tables := tables[r := marked];
        todo := todo - {r};
      }
    }

    /** Removes the expired routes and returns how many they were. */
    method DrainDeletedStale(now: int, staleSecs: U32) returns (removed: nat)
      modifies this
      ensures tables == Drain(old(tables), now, staleSecs)
      ensures removed == ExpiredCount(old(tables), now, staleSecs)
    {
      hide Total, Drain, DrainRoutes, DrainedBut, ExpiredCount;
      DrainCounts(tables, now, staleSecs);
      removed := 0;
      var todo := tables.Keys;
      DrainedEnds(tables, now, staleSecs);
      while todo != {}
        invariant todo <= old(tables).Keys
        invariant tables == DrainedBut(old(tables), todo, now, staleSecs)
        invariant removed + Total(tables) == Total(old(tables))
        decreases |todo|
      {
        var r :| r in todo;
        DrainedStep(old(tables), todo, r, now, staleSecs);
        var kept, n := RetainFresh(tables[r], now, staleSecs);
        TotalUpdate(tables, r, kept);
        tables := tables[r := kept];
        removed := removed + n;
        todo := todo - {r};
      }
    }

    method ClearAll()
      modifies this
      ensures tables == map[]
    {
      tables := map[];
    }
  }

  /** The tables of a drain that has not reached the RIBs of `todo` yet. */
  ghost function DrainedBut(t: Tables, todo: set<RibType>, now: int, staleSecs: U32): Tables {
    map r | r in t :: if r in todo then t[r] else DrainRoutes(t[r], now, staleSecs)
  }

  lemma DrainedEnds(t: Tables, now: int, staleSecs: U32)
    ensures DrainedBut(t, t.Keys, now, staleSecs) == t
    ensures DrainedBut(t, {}, now, staleSecs) == Drain(t, now, staleSecs)
  {
  }

  lemma DrainedStep(t: Tables, todo: set<RibType>, r: RibType, now: int, staleSecs: U32)
    requires r in todo && todo <= t.Keys
    ensures var d := DrainedBut(t, todo, now, staleSecs);
            && r in d && d[r] == t[r]
            && DrainedBut(t, todo - {r}, now, staleSecs) == d[r := DrainRoutes(t[r], now, staleSecs)]
  {
    hide DrainRoutes;
  }

  /** What a drain removes and what it keeps add up. */
  lemma DrainCounts(t: Tables, now: int, staleSecs: U32)
    ensures ExpiredCount(t, now, staleSecs) + Total(Drain(t, now, staleSecs)) == Total(t)
  {
    hide DrainRoutes, ExpiredKeys;
    DrainCount(t, AdjRibInPrePolicy, now, staleSecs);
    DrainCount(t, AdjRibInPostPolicy, now, staleSecs);
    DrainCount(t, AdjRibOutPrePolicy, now, staleSecs);
    DrainCount(t, AdjRibOutPostPolicy, now, staleSecs);
    DrainCount(t, LocRib, now, staleSecs);
    DrainCount(t, LocRibFiltered, now, staleSecs);
  }

  lemma NothingExpires(now: int, staleSecs: U32)
    ensures ExpiredCount(map[], now, staleSecs) == 0
  {
    assert ExpiredKeys(map[], now, staleSecs) == {};
  }

  lemma DrainCount(t: Tables, rib: RibType, now: int, staleSecs: U32)
    ensures ExpiredIn(t, rib, now, staleSecs) + Count(Drain(t, now, staleSecs), rib) == Count(t, rib)
  {
    hide DrainRoutes, ExpiredKeys;
    DrainSplits(RoutesOf(t, rib), now, staleSecs);
    if rib !in t {
      NothingDrained(now, staleSecs);
    }
  }

  lemma NothingDrained(now: int, staleSecs: U32)
    ensures DrainRoutes(map[], now, staleSecs) == map[]
  {
  }

  lemma DrainSplits(m: Routes, now: int, staleSecs: U32)
    ensures |ExpiredKeys(m, now, staleSecs)| + |DrainRoutes(m, now, staleSecs)| == |m|
  {
    hide Expired;
    var kept, gone := DrainRoutes(m, now, staleSecs), ExpiredKeys(m, now, staleSecs);
    assert kept.Keys + gone == m.Keys && kept.Keys !! gone;
    assert |kept.Keys + gone| == |kept.Keys| + |gone|;
    assert |kept.Keys| == |kept| && |m.Keys| == |m|;
  }

  lemma PutCount(m: Routes, key: string, e: RibEntry)
    ensures |m[key := e]| == |m| + if key in m then 0 else 1
  {
    var m' := m[key := e];
    assert m'.Keys == m.Keys + {key};
    assert |m.Keys| == |m| && |m'.Keys| == |m'|;
    assert key in m ==> m.Keys + {key} == m.Keys;
  }

  lemma TotalUpdate(t: Tables, rib: RibType, m: Routes)
    requires rib in t
    ensures Total(t[rib := m]) == Total(t) - |t[rib]| + |m|
  {
    assert Count(t, rib) == |t[rib]|;
    hide Count;
    CountUpdate(t, rib, m, AdjRibInPrePolicy);
    CountUpdate(t, rib, m, AdjRibInPostPolicy);
    CountUpdate(t, rib, m, AdjRibOutPrePolicy);
    CountUpdate(t, rib, m, AdjRibOutPostPolicy);
    CountUpdate(t, rib, m, LocRib);
    CountUpdate(t, rib, m, LocRibFiltered);
  }

  lemma CountUpdate(t: Tables, rib: RibType, m: Routes, other: RibType)
    ensures Count(t[rib := m], other) == if other == rib then |m| else Count(t, other)
  {
  }

  // --- The loops over one hash map ---

  method MatchingKeys(table: Routes, prefix: Prefix) returns (keys: seq<string>)
    ensures forall k :: k in keys <==> k in table && Scanned(k, prefix)
    ensures forall i, j :: 0 <= i < j < |keys| ==> keys[i] != keys[j]
  {
    keys := [];
    var todo := table.Keys;
    while todo != {}
      invariant todo <= table.Keys
      invariant forall k :: k in keys <==> k in table && k !in todo && Scanned(k, prefix)
      invariant forall i, j :: 0 <= i < j < |keys| ==> keys[i] != keys[j]
      decreases |todo|
    {
      var k :| k in todo;
      if Scanned(k, prefix) {
        keys := keys + [k];
      }
      todo := todo - {k};
    }
  }

  /** The first key of least rank, as `min_by_key` returns it. */
  method MinByRank(table: Routes, keys: seq<string>) returns (best: string)
    requires keys != [] && forall k :: k in keys ==> k in table
    ensures best in keys
    ensures forall k :: k in keys ==> RankLe(RankOf(table[best]), RankOf(table[k]))
  {
    best := keys[0];
    for i := 1 to |keys|
      invariant best in keys[..i]
      invariant forall k :: k in keys[..i] ==> RankLe(RankOf(table[best]), RankOf(table[k]))
    {
      assert keys[..i + 1] == keys[..i] + [keys[i]];
      if !RankLe(RankOf(table[best]), RankOf(table[keys[i]])) {
        best := keys[i];
      }
    }
    assert keys[..|keys|] == keys;
  }

  method FlagKeys(table: Routes, keys: seq<string>, best: string) returns (flagged: Routes)
    requires forall k :: k in keys ==> k in table
    ensures flagged == map k | k in table :: if k in keys then table[k].(isBest := k == best) else table[k]
  {
    flagged := table;
    for i := 0 to |keys|
      invariant flagged == map k | k in table ::
                  if k in keys[..i] then table[k].(isBest := k == best) else table[k]
    {
      assert keys[..i + 1] == keys[..i] + [keys[i]];
      flagged := flagged[keys[i] := flagged[keys[i]].(isBest := keys[i] == best)];
    }
    assert keys[..|keys|] == keys;
  }

  method MarkOne(m: Routes, at: int) returns (marked: Routes)
    ensures marked == MarkStaleRoutes(m, at)
  {
    marked := m;
    var todo := m.Keys;
    while todo != {}
      invariant todo <= m.Keys
      invariant marked == map k | k in m :: if k in todo then m[k] else Stale(m[k], at)
      decreases |todo|
    {
      var k :| k in todo;
      marked := marked[k := Stale(marked[k], at)];
      todo := todo - {k};
    }
  }

  method RetainFresh(m: Routes, now: int, staleSecs: U32) returns (kept: Routes, removed: nat)
    ensures kept == DrainRoutes(m, now, staleSecs)
    ensures removed + |kept| == |m|
  {
    kept, removed := m, 0;
    var todo := m.Keys;
    while todo != {}
      invariant todo <= m.Keys
      invariant kept == map k | k in m && (k in todo || !Expired(m[k], now, staleSecs)) :: m[k]
      invariant removed + |kept| == |m|
      decreases |todo|
    {
      var k :| k in todo;
      if Expired(m[k], now, staleSecs) {
        var next := kept - {k};
        assert next.Keys == kept.Keys - {k};
        assert |kept.Keys| == |kept| && |next.Keys| == |next|;
        kept, removed := next, removed + 1;
      }
      todo := todo - {k};
    }
  }
}

/** Laws of stale marking and expiry on one peer's tables. */
module RouteTableLaws {
  import opened Common
  import AsPath
  import opened RibKey
  import opened RouteTable

  /** A stored entry is stale-marked exactly when it has a stale time, and never `Deleted`. */
  ghost predicate LlgrConsistent(e: RibEntry) {
    (e.llgr == StaleMarked <==> e.staleAt.Some?) && e.llgr != Deleted
  }

  /** With at least one second of stale time, truncation to whole seconds is exact. */
  lemma ExpiredExactly(e: RibEntry, now: int, staleSecs: U32)
    requires LlgrConsistent(e) && staleSecs >= 1
    ensures Expired(e, now, staleSecs) <==> e.staleAt.Some? && e.staleAt.value + staleSecs * SECOND <= now
  {
  }

  /** With zero seconds it is not: a route marked stale up to one second in the future expires. */
  lemma ExpiredAtZeroSeconds(e: RibEntry, now: int)
    requires LlgrConsistent(e)
    ensures Expired(e, now, 0) <==> e.staleAt.Some? && e.staleAt.value < now + SECOND
  {
  }

  /** A repeated Peer Down never moves a stale time. */
  lemma MarkStaleIdempotent(t: Tables, first: int, second: int)
    ensures MarkStale(MarkStale(t, first), second) == MarkStale(t, first)
  {
    forall r | r in t
      ensures MarkStaleRoutes(MarkStaleRoutes(t[r], first), second) == MarkStaleRoutes(t[r], first)
    {
    }
  }

  lemma ExpiredMonotone(e: RibEntry, t1: int, t2: int, staleSecs: U32)
    requires t1 <= t2 && Expired(e, t1, staleSecs)
    ensures Expired(e, t2, staleSecs)
  {
  }

  /** Draining twice equals draining once at the later time, and so do the numbers of routes removed: no
      route is counted twice or missed. */
  lemma DrainTwice(t: Tables, t1: int, t2: int, staleSecs: U32)
    requires t1 <= t2
    ensures Drain(Drain(t, t1, staleSecs), t2, staleSecs) == Drain(t, t2, staleSecs)
    ensures ExpiredCount(t, t1, staleSecs) + ExpiredCount(Drain(t, t1, staleSecs), t2, staleSecs)
            == ExpiredCount(t, t2, staleSecs)
  {
    hide ExpiredCount, Total;
    DrainCounts(t, t1, staleSecs);
    DrainCounts(Drain(t, t1, staleSecs), t2, staleSecs);
    DrainCounts(t, t2, staleSecs);
    forall r | r in t
      ensures DrainRoutes(DrainRoutes(t[r], t1, staleSecs), t2, staleSecs) == DrainRoutes(t[r], t2, staleSecs)
    {
      var m := t[r];
      forall k | k in m && Expired(m[k], t1, staleSecs) ensures Expired(m[k], t2, staleSecs) {
        ExpiredMonotone(m[k], t1, t2, staleSecs);
      }
    }
    assert Drain(Drain(t, t1, staleSecs), t2, staleSecs) == Drain(t, t2, staleSecs);
  }

  // ---------------------------------------------------------------------------
  // Best path
  // ---------------------------------------------------------------------------

  /** LOCAL_PREF as compared: an absent one counts as zero. */
  function Preference(e: RibEntry): U32 {
    if e.attributes.localPref.Some? then e.attributes.localPref.value else 0
  }

  /** Hops as compared: the ASNs in SEQUENCE segments of the AS path, as a 32-bit number; none without a path. */
  function Hops(e: RibEntry): nat {
    if e.attributes.asPath.Some? then AsPath.HopCount(e.attributes.asPath.value) % 0x1_0000_0000 else 0
  }

  /** Route `a` is at least as good as `b`: higher LOCAL_PREF, then fewer hops, then a lower MED, where
      an absent MED is the highest. */
  predicate AtLeastAsGood(a: RibEntry, b: RibEntry) {
    if Preference(a) != Preference(b) then Preference(a) > Preference(b)
    else if Hops(a) != Hops(b) then Hops(a) < Hops(b)
    else b.attributes.med == None || b.attributes.med == Some(U32_MAX)
         || (a.attributes.med.Some? && a.attributes.med.value <= b.attributes.med.value)
  }

  /** The rank orders routes as the tie-breakers say. */
  lemma RankMeaning(a: RibEntry, b: RibEntry)
    ensures RankLe(RankOf(a), RankOf(b)) <==> AtLeastAsGood(a, b)
    ensures RankLe(RankOf(a), RankOf(b)) || RankLe(RankOf(b), RankOf(a))
  {
  }

  /** Every route sits under the key made from its own prefix and path id. */
  ghost predicate Keyed(m: Routes) {
    forall k :: k in m ==> k == EntryKey(m[k].prefix, m[k].pathId)
  }

  ghost predicate BestOf(m: Routes, p: Prefix, k: string) {
    k in m && m[k].prefix == p && m[k].isBest
  }

  ghost predicate AtMostOneBest(m: Routes, p: Prefix) {
    forall j, k :: BestOf(m, p, j) && BestOf(m, p, k) ==> j == k
  }

  /** Exactly one route of the prefix is best, and no route of the prefix ranks before it. */
  ghost predicate OneMinimalBest(m: Routes, p: Prefix) {
    && AtMostOneBest(m, p)
    && exists k :: BestOf(m, p, k) && forall j :: j in m && m[j].prefix == p ==> RankLe(RankOf(m[k]), RankOf(m[j]))
  }

  /** In a keyed map the string scan finds exactly the routes of the prefix. */
  lemma ScanFindsPrefix(m: Routes, p: Prefix, k: string)
    requires Keyed(m) && k in m
    ensures Scanned(k, p) <==> m[k].prefix == p
  {
    ScannedIffSamePrefix(p, m[k].prefix, m[k].pathId);
  }

  lemma ElectionKeepsKeys(m: Routes, m': Routes, p: Prefix)
    requires Keyed(m) && Elected(m, m', p)
    ensures Keyed(m') && m'.Keys == m.Keys
    ensures forall k :: k in m ==> m'[k] == m[k].(isBest := m'[k].isBest)
    ensures forall k :: k in m && m[k].prefix != p ==> m'[k] == m[k]
  {
    forall k | k in m ensures Scanned(k, p) <==> m[k].prefix == p {
      ScanFindsPrefix(m, p, k);
    }
  }

  /** An election over a prefix that has a route leaves exactly one best route, a minimal one. */
  lemma ElectionLeavesOneMinimal(m: Routes, m': Routes, p: Prefix, some: string)
    requires Keyed(m) && Elected(m, m', p) && some in m && m[some].prefix == p
    ensures OneMinimalBest(m', p)
  {
    hide RankLe, RankOf, Scanned, EntryKey;
    ScanFindsPrefix(m, p, some);
    var best :| Minimal(m, p, best) && m' == MarkBest(m, p, best);
    MarkedIsBest(m, p, best);
  }

  lemma MarkedIsBest(m: Routes, p: Prefix, best: string)
    requires Keyed(m) && Minimal(m, p, best)
    ensures OneMinimalBest(MarkBest(m, p, best), p)
  {
    hide RankLe, RankOf, Scanned, EntryKey;
    var m' := MarkBest(m, p, best);
    ScanFindsPrefix(m, p, best);
    assert BestOf(m', p, best);
    forall j | j in m' && m'[j].prefix == p
      ensures RankLe(RankOf(m'[best]), RankOf(m'[j])) && (m'[j].isBest ==> j == best)
    {
      ScanFindsPrefix(m, p, j);
      FlagKeepsRank(m[j], m'[j].isBest);
      FlagKeepsRank(m[best], true);
    }
  }

  lemma FlagKeepsRank(e: RibEntry, best: bool)
    ensures RankOf(e.(isBest := best)) == RankOf(e)
  {
  }

  /** The elected route is at least as good as every route of the prefix. */
  lemma ElectedIsGood(m: Routes, m': Routes, p: Prefix, best: string, other: string)
    requires Keyed(m) && Elected(m, m', p)
    requires BestOf(m', p, best) && other in m && m[other].prefix == p
    ensures best in m && AtLeastAsGood(m[best], m[other])
  {
    hide RankLe, RankOf, Scanned, EntryKey, AtLeastAsGood;
    ElectionLeavesOneMinimal(m, m', p, other);
    ElectionKeepsKeys(m, m', p);
    var k :| BestOf(m', p, k) && forall j :: j in m' && m'[j].prefix == p ==> RankLe(RankOf(m'[k]), RankOf(m'[j]));
    assert k == best;
    FlagKeepsRank(m[best], m'[best].isBest);
    FlagKeepsRank(m[other], m'[other].isBest);
    RankMeaning(m[best], m[other]);
  }

  /** So of two routes of a prefix with the same LOCAL_PREF the one with the shorter AS path is best, when no other
      route of the prefix is there. */
  lemma ShorterPathWins(m: Routes, m': Routes, p: Prefix, short: string, long: string)
    requires Keyed(m) && Elected(m, m', p)
    requires short in m && long in m && m[short].prefix == p && m[long].prefix == p
    requires forall k :: k in m && m[k].prefix == p ==> k == short || k == long
    requires m[short].attributes.localPref == m[long].attributes.localPref
    requires Hops(m[short]) < Hops(m[long])
    ensures BestOf(m', p, short) && !BestOf(m', p, long)
  {
    hide RankLe, RankOf, Scanned, EntryKey, Hops;
    ElectionLeavesOneMinimal(m, m', p, short);
    ElectionKeepsKeys(m, m', p);
    if BestOf(m', p, long) {
      ElectedIsGood(m, m', p, long, short);
      assert false;
    }
    var k :| BestOf(m', p, k);
    assert k == short || k == long;
  }

  /** For example, one SEQUENCE hop beats three. */
  lemma OneHopBeatsThree(m: Routes, m': Routes, p: Prefix)
    requires Keyed(m) && Elected(m, m', p)
    requires var k1, k2 := EntryKey(p, Some(1)), EntryKey(p, Some(2));
             && m.Keys == {k1, k2} && m[k1].prefix == p && m[k2].prefix == p
             && m[k1].attributes.localPref == m[k2].attributes.localPref == None
             && m[k1].attributes.asPath == Some([AsPath.AsSequence([65001])])
             && m[k2].attributes.asPath == Some([AsPath.AsSequence([65002, 65003, 65004])])
    ensures BestOf(m', p, EntryKey(p, Some(1))) && !BestOf(m', p, EntryKey(p, Some(2)))
  {
    hide Elected, EntryKey, BestOf;
    AsPath.HopsOfSegment([65001]);
    AsPath.HopsOfSegment([65002, 65003, 65004]);
    ShorterPathWins(m, m', p, EntryKey(p, Some(1)), EntryKey(p, Some(2)));
  }

  /** Announcing a prefix without a path id flags the new route best and elects nothing, so there
      is one best route afterwards exactly when no Add-Path route of the prefix was best. */
  lemma PlainAnnounceKeepsOneBestIff(m: Routes, e: RibEntry)
    requires Keyed(m) && e.pathId == None && e.isBest
    ensures AtMostOneBest(m[EntryKey(e.prefix, None) := e], e.prefix)
            <==> forall k :: BestOf(m, e.prefix, k) ==> m[k].pathId == None
  {
    var key := EntryKey(e.prefix, None);
    var m' := m[key := e];
    assert BestOf(m', e.prefix, key);
    forall k | BestOf(m, e.prefix, k)
      ensures m[k].pathId == None <==> k == key
    {
      if k == key {
        EntryKeyInjective(m[k].prefix, m[k].pathId, e.prefix, None);
      }
    }
    if AtMostOneBest(m', e.prefix) {
      forall k | BestOf(m, e.prefix, k) ensures m[k].pathId == None {
        if k != key {
          assert BestOf(m', e.prefix, k);
          assert false;
        }
      }
    } else {
      var j, k :| BestOf(m', e.prefix, j) && BestOf(m', e.prefix, k) && j != k;
      assert BestOf(m, e.prefix, if j == key then k else j);
    }
  }
}

/**
 The RTR client (`connect_and_sync` in `crates/rbmp-enrichment/src/rtr.rs`): PDUs of RFC 8210 drive a
 session that commits VRP tables into the shared cache.
 */
module Rtr {
  import opened Common
  import opened BigEndian
  import opened Powers
  import opened IpNets
  import opened VrpCache
  import Framing

  // ---------------------------------------------------------------------------
  // PDUs
  // ---------------------------------------------------------------------------

  /** What a PDU asks of the session. `Fail` ends it: an error report, a prefix length out of range, or
      an End of Data too short for its serial, which aborts the task. `Connect` starts a session. */
  datatype Act =
    | Connect
    | CacheResponse(sessionId: U16)
    | Announce(vrp: Vrp)
    | Withdraw(vrp: Vrp)
    | EndOfData(serial: U32)
    | CacheReset
    | Ignore
    | Fail

  function PrefixAct(pdu: seq<Byte>, v6: bool): Act
    requires |pdu| >= if v6 then 36 else 20
  {
    var octets := if v6 then 16 else 4;
    if pdu[9] > 8 * octets then Fail
    else
      var net := Net(v6, Number(pdu[12..12 + octets]), pdu[9]);
      var vrp := Vrp(net.Trunc(), pdu[10], GetU32(pdu[12 + octets..]));
      if pdu[8] % 2 == 1 then Announce(vrp) else Withdraw(vrp)
  }

  function Classify(pdu: seq<Byte>): Act
    requires |pdu| >= 8
  {
    var t := pdu[1];
    if t == 3 then CacheResponse(GetU16(pdu[2..]))
    else if t == 4 then if |pdu| < 20 then Ignore else PrefixAct(pdu, false)
    else if t == 6 then if |pdu| < 36 then Ignore else PrefixAct(pdu, true)
    else if t == 7 then if |pdu| < 12 then Fail else EndOfData(GetU32(pdu[8..]))
    else if t == 8 then CacheReset
    else if t == 10 then Fail
    else Ignore
  }

  /** A Prefix PDU (sections 5.6 and 5.7 of RFC 8210): header, flags, prefix length, maximum length, a zero
      byte, the address, the ASN. The standard has nothing behind the ASN. */
  function PrefixPdu(v6: bool, header: seq<Byte>, flags: Byte, len: Byte, maxLen: Byte, addr: seq<Byte>,
                     asn: U32, trailer: seq<Byte>): seq<Byte>
    requires |header| == 8
  {
    header[1 := if v6 then 6 else 4] + ([flags, len, maxLen, 0] + (addr + (PutU32(asn) + trailer)))
  }

  /** Every field is read from where it was put, and the low flag bit decides between announcement and
      withdrawal; but the size check for IPv6 asks for 36 bytes where the PDU has 32, so an IPv6 Prefix PDU
      counts exactly when at least 4 more bytes follow. */
  lemma PrefixPduRead(v6: bool, header: seq<Byte>, flags: Byte, len: Byte, maxLen: Byte, addr: seq<Byte>,
                      asn: U32, trailer: seq<Byte>)
    requires |header| == 8 && |addr| == (if v6 then 16 else 4) && len <= 8 * |addr|
    ensures var pdu := PrefixPdu(v6, header, flags, len, maxLen, addr, asn, trailer);
            var vrp := Vrp(Net(v6, Number(addr), len).Trunc(), maxLen, asn);
            && |pdu| >= 8
            && Classify(pdu) == if v6 && |trailer| < 4 then Ignore
                                else if flags % 2 == 1 then Announce(vrp) else Withdraw(vrp)
  {
    hide Number, PutU32, GetU32, Pow2, RoundDown;
    ReadBackU32(asn, trailer);
    var pdu := PrefixPdu(v6, header, flags, len, maxLen, addr, asn, trailer);
    assert pdu[1] == (if v6 then 6 else 4) && |pdu| == 16 + |addr| + |trailer|;
    assert pdu[8] == flags && pdu[9] == len && pdu[10] == maxLen;
    assert pdu[12..12 + |addr|] == addr;
    assert pdu[12 + |addr|..] == PutU32(asn) + trailer;
  }

  /** What a Prefix PDU stores, read off its octets (sections 5.6 and 5.7 of RFC 8210): maximum length at 10, ASN
      behind the address, and a network whose first `pdu[9]` bits are those of the address octets in order,
      with zeros after them. */
  lemma StoredFromOctets(pdu: seq<Byte>, v6: bool)
    requires |pdu| >= (if v6 then 36 else 20)
    requires pdu[1] == (if v6 then 6 else 4) && pdu[9] <= (if v6 then 128 else 32)
    ensures var act := Classify(pdu);
            && (if pdu[8] % 2 == 1 then act.Announce? else act.Withdraw?)
            && act.vrp.prefix.v6 == v6 && act.vrp.prefix.len == pdu[9] && act.vrp.maxLen == pdu[10]
            && act.vrp.asn == Number(if v6 then pdu[28..32] else pdu[16..20])
            && var hostBits := Pow2((if v6 then 128 else 32) - pdu[9]);
               act.vrp.prefix.addr == Number(if v6 then pdu[12..28] else pdu[12..16]) / hostBits * hostBits
  {
    hide Number, Pow2, GetU32;
    var n := if v6 then 28 else 16;
    ReadersAreBigEndian(pdu[n..]);
    assert pdu[n..][..4] == pdu[n..n + 4];
  }

  /** The other PDUs: type 8 resets the cache, 10 reports an error, an End of Data needs 12 octets, a prefix length out
      of range ends the session, and Prefix PDUs that are too short and all other types are ignored. */
  lemma OtherPdus(pdu: seq<Byte>)
    requires |pdu| >= 8
    ensures pdu[1] == 8 ==> Classify(pdu) == CacheReset
    ensures pdu[1] == 10 ==> Classify(pdu) == Fail
    ensures pdu[1] == 7 && |pdu| < 12 ==> Classify(pdu) == Fail
    ensures pdu[1] !in {3, 4, 6, 7, 8, 10} ==> Classify(pdu) == Ignore
    ensures pdu[1] == 4 && |pdu| < 20 ==> Classify(pdu) == Ignore
    ensures pdu[1] == 6 && |pdu| < 36 ==> Classify(pdu) == Ignore
    ensures pdu[1] == 4 && |pdu| >= 20 && pdu[9] > 32 ==> Classify(pdu) == Fail
    ensures pdu[1] == 6 && |pdu| >= 36 && pdu[9] > 128 ==> Classify(pdu) == Fail
  {
  }

  /** An IPv4 Prefix PDU that announces 10.0.0.0/8 up to /16 for AS 65001 makes 10.1.0.0/16 from that AS valid. */
  lemma TenSlashEight(version: Byte)
    ensures var pdu := [version, 4, 0, 0, 0, 0, 0, 20, 1, 8, 16, 0, 10, 0, 0, 0, 0, 0, 253, 233];
            && Classify(pdu) == Announce(Vrp(Net(false, 10 * 0x100_0000, 8), 16, 65001))
            && var route := Net(false, 10 * 0x100_0000 + 0x1_0000, 16);
               && AllValid([Classify(pdu).vrp]) && route.Valid()
               && Validate([Classify(pdu).vrp], route, 65001) == RpkiState.Valid
  {
    hide Number, Pow2, Classify, Covers, GetU32;
    var pdu := [version, 4, 0, 0, 0, 0, 0, 20, 1, 8, 16, 0, 10, 0, 0, 0, 0, 0, 253, 233];
    StoredFromOctets(pdu, false);
    assert pdu[12..16] == [10, 0, 0, 0] && pdu[16..20] == [0, 0, 253, 233];
    NumberOfFour(10, 0, 0, 0);
    NumberOfFour(0, 0, 253, 233);
    TenCovers();
    var vrp := Vrp(Net(false, 10 * 0x100_0000, 8), 16, 65001);
    assert Classify(pdu).vrp == vrp;
    assert Classify(pdu) == Announce(vrp);
    var es := [Classify(pdu).vrp];
    assert es[0] == vrp;
    assert Matched(es, Net(false, 10 * 0x100_0000 + 0x1_0000, 16), 65001);
  }

  lemma NumberOfFour(a: Byte, b: Byte, c: Byte, d: Byte)
    ensures Number([a, b, c, d]) == a * 0x100_0000 + b * 0x1_0000 + c * 256 + d
  {
    hide Number;
    ReadersAreBigEndian([a, b, c, d]);
    assert [a, b, c, d][..4] == [a, b, c, d];
  }

  lemma TenCovers()
    ensures Pow2(16) == 0x1_0000 && Pow2(24) == 0x100_0000 && Pow2(32) == 0x1_0000_0000
    ensures var ten, route := Net(false, 10 * 0x100_0000, 8), Net(false, 10 * 0x100_0000 + 0x1_0000, 16);
            ten.Valid() && route.Valid() && Covers(ten, route)
  {
    OctetPowers(8);
    Pow2Add(8, 8);
    Pow2Add(16, 8);
    Pow2Add(16, 16);
    hide Pow2;
    CoversIffPrefixBits(Net(false, 10 * 0x100_0000, 8), Net(false, 10 * 0x100_0000 + 0x1_0000, 16));
  }

  /** Cache Response and End of Data carry the session id and the serial where the standard puts them. */
  lemma ControlPdusRead(version: Byte, id: U16, length: U32, serial: U32, timers: seq<Byte>)
    ensures Classify([version, 3] + (PutU16(id) + PutU32(length))) == CacheResponse(id)
    ensures Classify([version, 7] + (PutU16(id) + (PutU32(length) + (PutU32(serial) + timers)))) == EndOfData(serial)
  {
    hide PutU16, PutU32, GetU16, GetU32;
    var response := [version, 3] + (PutU16(id) + PutU32(length));
    assert response[2..] == PutU16(id) + PutU32(length);
    ReadBackU16(id, PutU32(length));
    var end := [version, 7] + (PutU16(id) + (PutU32(length) + (PutU32(serial) + timers)));
    assert end[8..] == PutU32(serial) + timers;
    ReadBackU32(serial, timers);
  }

  /** Announced and withdrawn prefixes are valid networks without host bits. */
  lemma PrefixesAreCanonical(pdu: seq<Byte>)
    requires |pdu| >= 8
    ensures Classify(pdu).Announce? || Classify(pdu).Withdraw? ==> Classify(pdu).vrp.prefix.Canonical()
  {
    hide Pow2, GetU32, GetU16;
    if pdu[1] == 4 && |pdu| >= 20 && pdu[9] <= 32 {
      NumberBound(pdu[12..16]);
      TruncCanonical(Net(false, Number(pdu[12..16]), pdu[9]));
    } else if pdu[1] == 6 && |pdu| >= 36 && pdu[9] <= 128 {
      NumberBound(pdu[12..28]);
      TruncCanonical(Net(true, Number(pdu[12..28]), pdu[9]));
    }
  }

  lemma TruncCanonical(n: Net)
    requires n.Valid()
    ensures n.Trunc().Canonical()
  {
    hide Pow2;
    FloorUnique(n.Network(), n.Size(), n.addr / n.Size());
  }

  // ---------------------------------------------------------------------------
  // The session
  // ---------------------------------------------------------------------------

  datatype State = State(
    pending: seq<Vrp>, inResponse: bool, sessionId: U16, entries: seq<Vrp>, serial: U32)

  const START := State([], false, 0, [], 0)

  function Handle(s: State, act: Act): State {
    match act
    case Connect => s.(pending := [], inResponse := false, sessionId := 0)
    case CacheResponse(id) => s.(pending := [], inResponse := true, sessionId := id)
    case Announce(v) => s.(pending := s.pending + [v])
    case Withdraw(v) => s.(entries := Without(s.entries, v))
    case EndOfData(serial) =>
      if s.inResponse then s.(entries := s.pending, serial := serial, pending := [], inResponse := false)
      else s.(serial := serial)
    case CacheReset => s.(pending := [], inResponse := false)
    case Ignore => s
    case Fail => s
  }

  function Run(h: seq<Act>): State {
    if h == [] then START else Handle(Run(Front(h)), Last(h))
  }

  class RtrClient {
    const cache: Cache
    var pending: seq<Vrp>
    var inResponse: bool
    var sessionId: U16

    ghost function View(): State
      reads this, cache
    {
      State(pending, inResponse, sessionId, cache.entries, cache.serial)
    }

    constructor ()
      ensures fresh(cache) && View() == START
    {
      cache := new Cache();
      pending, inResponse, sessionId := [], false, 0;
    }

    /** A new connection: the session starts over, the cache stays. */
    method Reconnect()
      modifies this
      ensures View() == Handle(old(View()), Connect)
    {
      pending, inResponse, sessionId := [], false, 0;
    }

    /** One complete PDU; the result says whether the session goes on. */
    method OnPdu(pdu: seq<Byte>) returns (alive: bool)
      requires |pdu| >= 8
      modifies this, cache
      ensures View() == Handle(old(View()), Classify(pdu))
      ensures alive == !Classify(pdu).Fail?
    {
      alive := true;
      match Classify(pdu) {
        case CacheResponse(id) =>
          sessionId, inResponse, pending := id, true, [];
        case Announce(v) =>
          pending := pending + [v];
        case Withdraw(v) =>
          assert Front([v]) == [] && Last([v]) == v && Minus(cache.entries, []) == cache.entries;
          cache.ApplyDelta([], [v], cache.serial);
        case EndOfData(serial) =>
          if inResponse {
            cache.Reset(pending, serial);
            pending, inResponse := [], false;
          } else {
            cache.ApplyDelta([], [], serial);
          }
        case CacheReset =>
          pending, inResponse := [], false;
        case Fail =>
          alive := false;
        case _ =>
      }
    }
  }

  // ---------------------------------------------------------------------------
  // Over every history, only whole tables are visible
  // ---------------------------------------------------------------------------

  /** Acts that open, close or restart a response. */
  predicate Marks(a: Act) {
    a.Connect? || a.CacheResponse? || a.EndOfData? || a.CacheReset?
  }

  /** The latest mark before `k`. */
  ghost function LastMark(h: seq<Act>, k: nat): (j: Option<nat>)
    requires k <= |h|
    ensures j.Some? ==> j.value < k && Marks(h[j.value])
    ensures forall i :: (if j.Some? then j.value + 1 else 0) <= i < k ==> !Marks(h[i])
  {
    if k == 0 then None else if Marks(h[k - 1]) then Some(k - 1) else LastMark(h, k - 1)
  }

  /** Act `k` is an End of Data inside a response: the latest mark before it is a Cache Response. */
  ghost predicate Commits(h: seq<Act>, k: nat)
    requires k < |h|
  {
    h[k].EndOfData? && LastMark(h, k).Some? && h[LastMark(h, k).value].CacheResponse?
  }

  /** The announcements from act `from` to act `to`, in order. */
  ghost function Announced(h: seq<Act>, from: nat, to: nat): seq<Vrp>
    requires from <= to <= |h|
  {
    if from == to then []
    else Announced(h, from, to - 1) + if h[to - 1].Announce? then [h[to - 1].vrp] else []
  }

  ghost function Withdrawn(h: seq<Act>, from: nat, to: nat): seq<Vrp>
    requires from <= to <= |h|
  {
    if from == to then []
    else Withdrawn(h, from, to - 1) + if h[to - 1].Withdraw? then [h[to - 1].vrp] else []
  }

  ghost function LastCommit(h: seq<Act>, n: nat): (k: Option<nat>)
    requires n <= |h|
    ensures k.Some? ==> k.value < n && Commits(h, k.value)
    ensures forall i :: (if k.Some? then k.value + 1 else 0) <= i < n ==> !Commits(h, i)
  {
    if n == 0 then None else if Commits(h, n - 1) then Some(n - 1) else LastCommit(h, n - 1)
  }

  /** The table a history makes visible: exactly the announcements between the latest Cache Response and
      the End of Data that closed it, less the withdrawals since. */
  ghost function Visible(h: seq<Act>, n: nat): seq<Vrp>
    requires n <= |h|
  {
    match LastCommit(h, n)
    case None => []
    case Some(k) => Minus(Announced(h, LastMark(h, k).value + 1, k), Withdrawn(h, k + 1, n))
  }

  ghost function LastSerial(h: seq<Act>, n: nat): U32
    requires n <= |h|
  {
    if n == 0 then 0 else if h[n - 1].EndOfData? then h[n - 1].serial else LastSerial(h, n - 1)
  }

  /** The session id of the latest Cache Response on this connection. */
  ghost function LastSession(h: seq<Act>, n: nat): U16
    requires n <= |h|
  {
    if n == 0 || h[n - 1].Connect? then 0
    else if h[n - 1].CacheResponse? then h[n - 1].sessionId else LastSession(h, n - 1)
  }

  /** What the session fields mean in terms of the history. */
  ghost predicate Matches(h: seq<Act>, n: nat, s: State)
    requires n <= |h|
  {
    && s.entries == Visible(h, n)
    && s.serial == LastSerial(h, n)
    && s.sessionId == LastSession(h, n)
    && s.inResponse == (LastMark(h, n).Some? && h[LastMark(h, n).value].CacheResponse?)
    && (s.inResponse ==> s.pending == Announced(h, LastMark(h, n).value + 1, n))
  }

  /** How one act changes the visible table. */
  lemma VisibleStep(h: seq<Act>, n: nat)
    requires n < |h|
    ensures Visible(h, n + 1)
            == if Commits(h, n) then Announced(h, LastMark(h, n).value + 1, n)
               else if h[n].Withdraw? then Without(Visible(h, n), h[n].vrp)
               else Visible(h, n)
  {
    hide Announced, LastMark, Commits, Without;
    if Commits(h, n) {
      assert Withdrawn(h, n + 1, n + 1) == [];
    } else if LastCommit(h, n).Some? {
      WithdrawnStep(h, LastCommit(h, n).value + 1, n);
    } else {
      WithoutNothing(h[n]);
    }
  }

  lemma WithdrawnStep(h: seq<Act>, from: nat, n: nat)
    requires from <= n < |h|
    ensures forall es :: Minus(es, Withdrawn(h, from, n + 1))
                         == if h[n].Withdraw? then Without(Minus(es, Withdrawn(h, from, n)), h[n].vrp)
                            else Minus(es, Withdrawn(h, from, n))
  {
    hide Without;
    var w := Withdrawn(h, from, n);
    if h[n].Withdraw? {
      assert Front(w + [h[n].vrp]) == w && Last(w + [h[n].vrp]) == h[n].vrp;
    } else {
      assert w + [] == w;
    }
  }

  lemma WithoutNothing(act: Act)
    ensures act.Withdraw? ==> Without([], act.vrp) == []
  {
  }

  lemma HandleMatches(h: seq<Act>, n: nat, s: State)
    requires n < |h| && Matches(h, n, s)
    ensures Matches(h, n + 1, Handle(s, h[n]))
  {
    hide Visible;
    VisibleStep(h, n);
    if s.inResponse && !Marks(h[n]) {
      var j := LastMark(h, n).value;
      assert Announced(h, j + 1, n) + [] == Announced(h, j + 1, n);
    }
  }

  /** No half-loaded table is ever visible: after every history, across any number of connections, the
      cache holds the last committed table less the withdrawals since, with the last serial seen. */
  lemma {:induction false} OnlyWholeTablesVisible(h: seq<Act>, n: nat)
    requires n <= |h|
    ensures Matches(h, n, Run(h[..n]))
  {
    if n > 0 {
      OnlyWholeTablesVisible(h, n - 1);
      assert Front(h[..n]) == h[..n - 1] && Last(h[..n]) == h[n - 1];
      HandleMatches(h, n - 1, Run(h[..n - 1]));
    }
  }

  /** Until a commit the visible table never grows: whatever is being loaded stays out of sight. */
  lemma {:induction false} LoadingStaysHidden(h: seq<Act>, m: nat, n: nat, v: Vrp)
    requires m <= n <= |h| && forall k :: m <= k < n ==> !Commits(h, k)
    requires v in Run(h[..n]).entries
    ensures v in Run(h[..m]).entries
    decreases n
  {
    hide Run, Visible, Commits, Announced, LastMark, Without;
    if m < n {
      OnlyWholeTablesVisible(h, n);
      OnlyWholeTablesVisible(h, n - 1);
      VisibleStep(h, n - 1);
      if h[n - 1].Withdraw? {
        WithoutKeeps(Visible(h, n - 1), h[n - 1].vrp, v);
      }
      LoadingStaysHidden(h, m, n - 1, v);
    }
  }

  /** A withdrawal inside a response acts on the visible table, not on the one being loaded: the
      withdrawn entry is in the table that the response commits. */
  lemma WithdrawnInResponseIsCommitted(v: Vrp)
    ensures Run([Connect, CacheResponse(0), Announce(v), Withdraw(v), EndOfData(1)]).entries == [v]
  {
    var h := [Connect, CacheResponse(0), Announce(v), Withdraw(v), EndOfData(1)];
    RunTo(h, 0);
    RunTo(h, 1);
    RunTo(h, 2);
    RunTo(h, 3);
    RunTo(h, 4);
    assert h[..5] == h;
  }

  // ---------------------------------------------------------------------------
  // What a response should do, and when a commit does it
  // ---------------------------------------------------------------------------

  /** The first act of the response that act `n` commits. */
  ghost function ResponseStart(h: seq<Act>, n: nat): (from: nat)
    requires n < |h| && Commits(h, n)
    ensures 0 < from <= n && LastMark(h, n) == Some(from - 1)
  {
    LastMark(h, n).value + 1
  }

  ghost predicate AnnouncedIn(h: seq<Act>, from: nat, to: nat, v: Vrp)
    requires from <= to <= |h|
  {
    exists k :: from <= k < to && h[k] == Announce(v)
  }

  /** Some act withdraws the prefix and origin of `v`. */
  ghost predicate WithdrawnIn(h: seq<Act>, from: nat, to: nat, v: Vrp)
    requires from <= to <= |h|
  {
    exists l :: from <= l < to && h[l].Withdraw? && SameRoa(v, h[l].vrp)
  }

  lemma {:induction false} AnnouncedHas(h: seq<Act>, from: nat, to: nat, v: Vrp)
    requires from <= to <= |h|
    ensures v in Announced(h, from, to) <==> AnnouncedIn(h, from, to, v)
  {
    if from < to {
      AnnouncedHas(h, from, to - 1, v);
      assert AnnouncedIn(h, from, to, v) <==> AnnouncedIn(h, from, to - 1, v) || h[to - 1] == Announce(v);
    }
  }

  lemma {:induction false} WithdrawnHas(h: seq<Act>, from: nat, to: nat, v: Vrp)
    requires from <= to <= |h|
    ensures (exists r :: r in Withdrawn(h, from, to) && SameRoa(v, r)) <==> WithdrawnIn(h, from, to, v)
  {
    if from < to {
      WithdrawnHas(h, from, to - 1, v);
      WithdrawnInStep(h, from, to, v);
    }
  }

  lemma WithdrawnInStep(h: seq<Act>, from: nat, to: nat, v: Vrp)
    requires from < to <= |h|
    ensures WithdrawnIn(h, from, to, v)
            <==> WithdrawnIn(h, from, to - 1, v) || (h[to - 1].Withdraw? && SameRoa(v, h[to - 1].vrp))
  {
  }

  /** The last commit announced `v` and nothing has withdrawn it since. */
  ghost predicate Outstanding(h: seq<Act>, n: nat, v: Vrp)
    requires n <= |h|
  {
    match LastCommit(h, n)
    case None => false
    case Some(c) => AnnouncedIn(h, ResponseStart(h, c), c, v) && !WithdrawnIn(h, c + 1, n, v)
  }

  lemma VisibleHas(h: seq<Act>, n: nat, v: Vrp)
    requires n <= |h|
    ensures v in Visible(h, n) <==> Outstanding(h, n, v)
  {
    hide Announced, Withdrawn, Minus, AnnouncedIn, WithdrawnIn, LastMark, Commits;
    match LastCommit(h, n) {
      case None =>
      case Some(c) =>
        var from := ResponseStart(h, c);
        AnnouncedHas(h, from, c, v);
        WithdrawnHas(h, c + 1, n, v);
        MinusKeeps(Announced(h, from, c), Withdrawn(h, c + 1, n), v);
        assert forall r :: SameRoa(v, r) <==> v.prefix == r.prefix && v.asn == r.asn;
    }
  }

  lemma CommitIsAnnounced(h: seq<Act>, n: nat)
    requires n < |h| && Commits(h, n)
    ensures Run(h[..n + 1]).entries == Announced(h, ResponseStart(h, n), n)
  {
    hide Visible, Announced, LastMark, Commits, Without, Run;
    OnlyWholeTablesVisible(h, n + 1);
    VisibleStep(h, n);
  }

  /** An incremental response (section 8.2 of RFC 8210) should add to the table. A commit replaces it: the
      outcome is the visible table and the additions if and only if every entry of the last commit that
      nothing has withdrawn since is announced again after the Cache Response. */
  lemma CommitKeepsOldIff(h: seq<Act>, n: nat)
    requires n < |h| && Commits(h, n)
    ensures var before, after := Run(h[..n]).entries, Run(h[..n + 1]).entries;
            var from := ResponseStart(h, n);
            (forall v :: v in after <==> v in before || AnnouncedIn(h, from, n, v))
            <==> forall v :: Outstanding(h, n, v) ==> AnnouncedIn(h, from, n, v)
  {
    hide Visible, Announced, LastMark, Commits, Without, Run, Outstanding, AnnouncedIn;
    CommitIsAnnounced(h, n);
    OnlyWholeTablesVisible(h, n);
    forall v ensures v in Run(h[..n]).entries <==> Outstanding(h, n, v) {
      VisibleHas(h, n, v);
    }
    var from := ResponseStart(h, n);
    forall v ensures v in Run(h[..n + 1]).entries <==> AnnouncedIn(h, from, n, v) {
      AnnouncedHas(h, from, n, v);
    }
  }

  /** The acts of a response in their order, on the entries `es`: an announcement adds an entry, a withdrawal
      removes those it names. */
  ghost function Applied(es: seq<Vrp>, h: seq<Act>, from: nat, to: nat): seq<Vrp>
    requires from <= to <= |h|
  {
    if from == to then es
    else
      var before := Applied(es, h, from, to - 1);
      if h[to - 1].Announce? then before + [h[to - 1].vrp]
      else if h[to - 1].Withdraw? then Without(before, h[to - 1].vrp)
      else before
  }

  /** Something announced is withdrawn later on. */
  ghost predicate TakenBack(h: seq<Act>, from: nat, to: nat)
    requires from <= to <= |h|
  {
    exists k, l :: from <= k < l < to && h[k].Announce? && h[l].Withdraw? && SameRoa(h[k].vrp, h[l].vrp)
  }

  lemma {:induction false} WithoutShorter(es: seq<Vrp>, r: Vrp)
    ensures |Without(es, r)| <= |es|
    ensures if forall e :: e in es ==> !SameRoa(e, r) then Without(es, r) == es else |Without(es, r)| < |es|
  {
    if es != [] {
      WithoutShorter(Front(es), r);
      assert es == Front(es) + [Last(es)];
      assert forall e :: e in es <==> e in Front(es) || e == Last(es);
    }
  }

  lemma TakenBackStep(h: seq<Act>, from: nat, last: nat)
    requires from <= last < |h|
    ensures TakenBack(h, from, last + 1)
            <==> TakenBack(h, from, last)
                 || (h[last].Withdraw? && exists v :: AnnouncedIn(h, from, last, v) && SameRoa(v, h[last].vrp))
  {
    if TakenBack(h, from, last + 1) && !TakenBack(h, from, last) {
      var k, l :| from <= k < l < last + 1 && h[k].Announce? && h[l].Withdraw? && SameRoa(h[k].vrp, h[l].vrp);
      assert l == last && AnnouncedIn(h, from, last, h[k].vrp);
    }
  }

  lemma {:induction false} AppliedIff(h: seq<Act>, from: nat, to: nat)
    requires from <= to <= |h|
    ensures if TakenBack(h, from, to) then |Applied([], h, from, to)| < |Announced(h, from, to)|
            else Applied([], h, from, to) == Announced(h, from, to)
  {
    hide TakenBack, AnnouncedIn;
    if from == to {
      NothingTakenBack(h, from);
    } else {
      var last: nat := to - 1;
      AppliedIff(h, from, last);
      TakenBackStep(h, from, last);
      if h[last].Withdraw? {
        WithoutShorter(Applied([], h, from, last), h[last].vrp);
        forall v ensures v in Announced(h, from, last) <==> AnnouncedIn(h, from, last, v) {
          AnnouncedHas(h, from, last, v);
        }
      }
    }
  }

  lemma NothingTakenBack(h: seq<Act>, from: nat)
    requires from <= |h|
    ensures !TakenBack(h, from, from)
  {
  }

  /** A commit respects the withdrawals of its response, on what the response loads, if and only if no
      announcement of the response is withdrawn later in it. */
  lemma CommitAppliesResponseIff(h: seq<Act>, n: nat)
    requires n < |h| && Commits(h, n)
    ensures var from := ResponseStart(h, n);
            Run(h[..n + 1]).entries == Applied([], h, from, n) <==> !TakenBack(h, from, n)
  {
    hide Announced, Applied, TakenBack, Commits, LastMark, Run;
    CommitIsAnnounced(h, n);
    AppliedIff(h, ResponseStart(h, n), n);
  }

  /** `v` is announced and not withdrawn after that. */
  ghost predicate AnnouncedForGood(h: seq<Act>, from: nat, to: nat, v: Vrp)
    requires from <= to <= |h|
  {
    exists k :: from <= k < to && h[k] == Announce(v) && !WithdrawnIn(h, k + 1, to, v)
  }

  lemma {:induction false} AppliedHas(es: seq<Vrp>, h: seq<Act>, from: nat, to: nat, v: Vrp)
    requires from <= to <= |h|
    ensures v in Applied(es, h, from, to)
            <==> AnnouncedForGood(h, from, to, v) || (v in es && !WithdrawnIn(h, from, to, v))
  {
    hide AnnouncedForGood, WithdrawnIn, Without;
    if from == to {
      NothingAnnounced(h, from, v);
    } else {
      var before, act := Applied(es, h, from, to - 1), h[to - 1];
      AppliedHas(es, h, from, to - 1, v);
      ForGoodStep(h, from, to - 1, v);
      WithdrawnInStep(h, from, to, v);
      if act.Withdraw? {
        WithoutKeeps(before, act.vrp, v);
      }
    }
  }

  lemma NothingAnnounced(h: seq<Act>, from: nat, v: Vrp)
    requires from <= |h|
    ensures !AnnouncedForGood(h, from, from, v) && !WithdrawnIn(h, from, from, v)
  {
  }

  lemma ForGoodStep(h: seq<Act>, from: nat, last: nat, v: Vrp)
    requires from <= last < |h|
    ensures AnnouncedForGood(h, from, last + 1, v)
            <==> h[last] == Announce(v)
                 || (AnnouncedForGood(h, from, last, v) && !(h[last].Withdraw? && SameRoa(v, h[last].vrp)))
  {
    hide WithdrawnIn;
    NothingAnnounced(h, last + 1, v);
    forall k | from <= k < last && h[k] == Announce(v)
      ensures WithdrawnIn(h, k + 1, last + 1, v)
              <==> WithdrawnIn(h, k + 1, last, v) || (h[last].Withdraw? && SameRoa(v, h[last].vrp))
    {
      WithdrawnInStep(h, k + 1, last + 1, v);
    }
    if AnnouncedForGood(h, from, last, v) {
      var k :| from <= k < last && h[k] == Announce(v) && !WithdrawnIn(h, k + 1, last, v);
      assert h[k] == Announce(v);
    }
  }

  /** What the acts of the response that act `n` commits make of the table visible at its Cache Response. */
  ghost function Expected(h: seq<Act>, n: nat): seq<Vrp>
    requires n < |h| && Commits(h, n)
  {
    Applied(Run(h[..ResponseStart(h, n) - 1]).entries, h, ResponseStart(h, n), n)
  }

  /** `v` was visible at the Cache Response and the response does not withdraw it. */
  ghost predicate LeftAlone(h: seq<Act>, n: nat, v: Vrp)
    requires n < |h| && Commits(h, n)
  {
    Outstanding(h, ResponseStart(h, n) - 1, v) && !WithdrawnIn(h, ResponseStart(h, n), n, v)
  }

  lemma ExpectedHas(h: seq<Act>, n: nat, v: Vrp)
    requires n < |h| && Commits(h, n)
    ensures var from := ResponseStart(h, n);
            && (v in Run(h[..n + 1]).entries <==> AnnouncedIn(h, from, n, v))
            && (v in Expected(h, n) <==> AnnouncedForGood(h, from, n, v) || LeftAlone(h, n, v))
            && (AnnouncedForGood(h, from, n, v) ==> AnnouncedIn(h, from, n, v))
            && (AnnouncedIn(h, from, n, v) && LeftAlone(h, n, v) ==> AnnouncedForGood(h, from, n, v))
  {
    hide Visible, Announced, Applied, LastMark, Commits, Run, Outstanding, WithdrawnIn, AnnouncedIn, AnnouncedForGood;
    var from := ResponseStart(h, n);
    CommitIsAnnounced(h, n);
    OnlyWholeTablesVisible(h, from - 1);
    AnnouncedHas(h, from, n, v);
    VisibleHas(h, from - 1, v);
    AppliedHas(Run(h[..from - 1]).entries, h, from, n, v);
    ForGoodMeans(h, from, n, v);
  }

  /** Both faults together: a commit leaves what the acts of its response make of the table that was visible
      at the Cache Response if and only if every entry of that table that the response leaves alone is
      announced again, and no announcement is withdrawn for good. */
  lemma CommitIsUpdateIff(h: seq<Act>, n: nat)
    requires n < |h| && Commits(h, n)
    ensures var from := ResponseStart(h, n);
            (forall v :: v in Run(h[..n + 1]).entries <==> v in Expected(h, n))
            <==> (forall v :: LeftAlone(h, n, v) ==> AnnouncedIn(h, from, n, v))
                 && (forall v :: AnnouncedIn(h, from, n, v) ==> AnnouncedForGood(h, from, n, v))
  {
    hide Run, Expected, LeftAlone, AnnouncedIn, AnnouncedForGood, Commits;
    var from := ResponseStart(h, n);
    if forall v :: v in Run(h[..n + 1]).entries <==> v in Expected(h, n) {
      forall v ensures LeftAlone(h, n, v) ==> AnnouncedIn(h, from, n, v)
               ensures AnnouncedIn(h, from, n, v) ==> AnnouncedForGood(h, from, n, v)
      {
        ExpectedHas(h, n, v);
      }
    }
    if (forall v :: LeftAlone(h, n, v) ==> AnnouncedIn(h, from, n, v))
       && (forall v :: AnnouncedIn(h, from, n, v) ==> AnnouncedForGood(h, from, n, v)) {
      forall v ensures v in Run(h[..n + 1]).entries <==> v in Expected(h, n) {
        ExpectedHas(h, n, v);
      }
    }
  }

  lemma ForGoodMeans(h: seq<Act>, from: nat, to: nat, v: Vrp)
    requires from <= to <= |h|
    ensures AnnouncedForGood(h, from, to, v) ==> AnnouncedIn(h, from, to, v)
    ensures AnnouncedIn(h, from, to, v) && !WithdrawnIn(h, from, to, v) ==> AnnouncedForGood(h, from, to, v)
  {
    if AnnouncedIn(h, from, to, v) && !WithdrawnIn(h, from, to, v) {
      var k :| from <= k < to && h[k] == Announce(v);
      assert !WithdrawnIn(h, k + 1, to, v);
    }
  }

  /** A full load of one VRP, then an update that adds another: only the addition is left. */
  lemma UpdateLosesTable(v: Vrp, u: Vrp)
    ensures Run([CacheResponse(0), Announce(v), EndOfData(1)]).entries == [v]
    ensures Run([CacheResponse(0), Announce(v), EndOfData(1), CacheResponse(0), Announce(u), EndOfData(2)]).entries
            == [u]
  {
    var h := [CacheResponse(0), Announce(v), EndOfData(1), CacheResponse(0), Announce(u), EndOfData(2)];
    RunTo(h, 0);
    RunTo(h, 1);
    RunTo(h, 2);
    assert h[..3] == [CacheResponse(0), Announce(v), EndOfData(1)];
    RunTo(h, 3);
    RunTo(h, 4);
    RunTo(h, 5);
    assert h[..6] == h;
  }

  lemma RunTo(h: seq<Act>, k: nat)
    requires k < |h|
    ensures Run(h[..0]) == START && Run(h[..k + 1]) == Handle(Run(h[..k]), h[k])
  {
    assert Front(h[..k + 1]) == h[..k];
  }

  // ---------------------------------------------------------------------------
  // From bytes to the cache
  // ---------------------------------------------------------------------------

  predicate Complete(pdus: seq<seq<Byte>>) {
    forall i :: 0 <= i < |pdus| ==> |pdus[i]| >= 8
  }

  /** A session over a list of PDUs: it stops at the first that ends it. */
  function RunPdus(s: State, alive: bool, pdus: seq<seq<Byte>>): (State, bool)
    requires Complete(pdus)
    decreases |pdus|
  {
    if pdus == [] || !alive then (s, alive)
    else
      var act := Classify(pdus[0]);
      RunPdus(Handle(s, act), !act.Fail?, pdus[1..])
  }

  /** IPv6 Prefix PDUs have the length that section 5.7 of RFC 8210 gives them. */
  ghost predicate Standard(pdu: seq<Byte>) {
    |pdu| >= 8 && (pdu[1] == 6 ==> |pdu| == 32)
  }

  ghost predicate AllStandard(pdus: seq<seq<Byte>>)
    ensures AllStandard(pdus) ==> Complete(pdus)
  {
    forall i :: 0 <= i < |pdus| ==> Standard(pdus[i])
  }

  predicate CompleteSessions(sessions: seq<seq<seq<Byte>>>) {
    forall k :: 0 <= k < |sessions| ==> Complete(sessions[k])
  }

  ghost predicate StandardSessions(sessions: seq<seq<seq<Byte>>>)
    ensures StandardSessions(sessions) ==> CompleteSessions(sessions)
  {
    forall k :: 0 <= k < |sessions| ==> AllStandard(sessions[k])
  }

  /** One connection after the other, on the same cache. */
  function RunSessions(sessions: seq<seq<seq<Byte>>>): State
    requires CompleteSessions(sessions)
  {
    if sessions == [] then START
    else RunPdus(Handle(RunSessions(Front(sessions)), Connect), true, Last(sessions)).0
  }

  ghost predicate OnlyIpv4(es: seq<Vrp>) {
    AllValid(es) && forall i :: 0 <= i < |es| ==> !es[i].prefix.v6
  }

  lemma StandardActIsIpv4(pdu: seq<Byte>)
    requires Standard(pdu)
    ensures Classify(pdu).Announce? || Classify(pdu).Withdraw? ==>
              Classify(pdu).vrp.prefix.Valid() && !Classify(pdu).vrp.prefix.v6
  {
    PrefixesAreCanonical(pdu);
  }

  lemma {:induction false} WithoutOnlyIpv4(es: seq<Vrp>, r: Vrp)
    requires OnlyIpv4(es)
    ensures OnlyIpv4(Without(es, r))
  {
    if es != [] {
      WithoutOnlyIpv4(Front(es), r);
      assert Last(es) == es[|es| - 1];
    }
  }

  lemma {:induction false} StandardSessionsLoadOnlyIpv4(s: State, alive: bool, pdus: seq<seq<Byte>>)
    requires AllStandard(pdus)
    requires OnlyIpv4(s.entries) && OnlyIpv4(s.pending)
    ensures OnlyIpv4(RunPdus(s, alive, pdus).0.entries) && OnlyIpv4(RunPdus(s, alive, pdus).0.pending)
    decreases |pdus|
  {
    hide Classify, Standard;
    if pdus != [] && alive {
      StandardActIsIpv4(pdus[0]);
      var act := Classify(pdus[0]);
      if act.Withdraw? {
        WithoutOnlyIpv4(s.entries, act.vrp);
      }
      StandardSessionsLoadOnlyIpv4(Handle(s, act), !act.Fail?, pdus[1..]);
    }
  }

  lemma {:induction false} SessionsLoadOnlyIpv4(sessions: seq<seq<seq<Byte>>>)
    requires StandardSessions(sessions)
    ensures OnlyIpv4(RunSessions(sessions).entries) && OnlyIpv4(RunSessions(sessions).pending)
  {
    hide RunPdus, OnlyIpv4, AllStandard;
    if sessions == [] {
      NothingIsIpv4();
    } else {
      SessionsLoadOnlyIpv4(Front(sessions));
      NothingIsIpv4();
      StandardSessionsLoadOnlyIpv4(Handle(RunSessions(Front(sessions)), Connect), true, Last(sessions));
    }
  }

  lemma NothingIsIpv4()
    ensures OnlyIpv4([])
  {
  }

  /** So after any number of sessions of standard PDUs every IPv6 route validates as NotFound, whatever
      VRPs the cache server announced. */
  lemma Ipv6NeverFound(sessions: seq<seq<seq<Byte>>>, route: Net, asn: U32)
    requires StandardSessions(sessions)
    requires route.Valid() && route.v6
    ensures var es := RunSessions(sessions).entries;
            AllValid(es) && Validate(es, route, asn) == NotFound
  {
    SessionsLoadOnlyIpv4(sessions);
  }

  lemma {:induction false} FramesComplete(b: seq<Byte>)
    ensures Complete(Framing.Drain(Framing.Rtr, b).frames)
    decreases |b|
  {
    match Framing.NextTurn(Framing.Rtr, b) {
      case Take(n) => FramesComplete(b[n..]);
      case _ =>
    }
  }

  /** What the cache ends up with depends on the bytes of the session, not on how they were read. */
  lemma CacheIgnoresChunking(s: State, chunks: seq<seq<Byte>>)
    ensures Complete(Framing.FeedAll(Framing.Rtr, chunks).frames)
    ensures Complete(Framing.Drain(Framing.Rtr, Flatten(chunks)).frames)
    ensures RunPdus(s, true, Framing.FeedAll(Framing.Rtr, chunks).frames)
            == RunPdus(s, true, Framing.Drain(Framing.Rtr, Flatten(chunks)).frames)
  {
    FramesComplete(Flatten(chunks));
    Framing.ChunkingIrrelevant(Framing.Rtr, chunks);
  }

  lemma {:induction false} RunPdusAppend(s: State, alive: bool, a: seq<seq<Byte>>, b: seq<seq<Byte>>)
    requires Complete(a) && Complete(b)
    ensures Complete(a + b)
    ensures var mid := RunPdus(s, alive, a); RunPdus(s, alive, a + b) == RunPdus(mid.0, mid.1, b)
    decreases |a|
  {
    hide Classify;
    if a == [] || !alive {
      assert a == [] ==> a + b == b;
    } else {
      var act := Classify(a[0]);
      assert (a + b)[1..] == a[1..] + b;
      RunPdusAppend(Handle(s, act), !act.Fail?, a[1..], b);
    }
  }

  lemma RunPdusOne(s: State, pdu: seq<Byte>)
    requires |pdu| >= 8
    ensures RunPdus(s, true, [pdu]) == (Handle(s, Classify(pdu)), !Classify(pdu).Fail?)
  {
    hide Classify, Handle;
    assert [pdu][1..] == [];
  }

  /** What later reads deliver comes behind what earlier ones did. */
  lemma {:induction false} FramesGrow(chunks: seq<seq<Byte>>, i: nat)
    requires i <= |chunks|
    ensures Framing.FeedAll(Framing.Rtr, chunks[..i]).frames <= Framing.FeedAll(Framing.Rtr, chunks).frames
    decreases |chunks|
  {
    if i == |chunks| {
      assert chunks[..i] == chunks;
    } else {
      FramesGrow(Front(chunks), i);
      assert Front(chunks)[..i] == chunks[..i];
    }
  }

  /** One connection: every read goes to the framer, every complete PDU to the client, until the stream or the
      session ends. */
  method Converse(client: RtrClient, chunks: seq<seq<Byte>>) returns (alive: bool)
    modifies client, client.cache
    ensures Complete(Framing.Drain(Framing.Rtr, Flatten(chunks)).frames)
    ensures (client.View(), alive)
            == RunPdus(Handle(old(client.View()), Connect), true, Framing.Drain(Framing.Rtr, Flatten(chunks)).frames)
  {
    hide Framing.Feed, Framing.FeedAll, Framing.Drain, Classify, Handle, RunPdus, Flatten;
    client.Reconnect();
    var reader := new Framing.FrameReader(Framing.Rtr);
    alive := true;
    ghost var start := client.View();
    Framing.FeedNothing(Framing.Rtr);
    assert chunks[..0] == [];
    RunPdusNothing(start);
    var i := 0;
    while i < |chunks| && alive
      invariant i <= |chunks| && fresh(reader) && reader.protocol == Framing.Rtr
      invariant reader.View() == Framing.FeedAll(Framing.Rtr, chunks[..i])
      invariant Complete(reader.frames) && (client.View(), alive) == RunPdus(start, true, reader.frames)
    {
      ghost var before := reader.frames;
      assert chunks[..i + 1] == chunks[..i] + [chunks[i]];
      Framing.FeedAllSnoc(Framing.Rtr, chunks[..i], chunks[i]);
      var done := |reader.frames|;
      reader.OnRead(chunks[i]);
      i := i + 1;
      FeedKeepsFrames(chunks[..i]);
      assert chunks[..i][..i - 1] == chunks[..i - 1];
      FramesGrow(chunks[..i], i - 1);
      assert reader.frames[..done] == before;
      alive := HandleNew(client, reader.frames, done, start);
    }
    FramesGrow(chunks, i);
    FeedKeepsFrames(chunks);
    Framing.ChunkingIrrelevant(Framing.Rtr, chunks);
    ghost var all := Framing.FeedAll(Framing.Rtr, chunks).frames;
    ghost var rest := all[|reader.frames|..];
    assert all == reader.frames + rest;
    if alive {
      assert chunks[..i] == chunks;
    } else {
      RunPdusAppend(start, true, reader.frames, rest);
      RunPdusDead(client.View(), rest);
    }
  }

  lemma RunPdusNothing(s: State)
    ensures RunPdus(s, true, []) == (s, true)
  {
  }

  lemma RunPdusDead(s: State, pdus: seq<seq<Byte>>)
    requires Complete(pdus)
    ensures RunPdus(s, false, pdus) == (s, false)
  {
  }

  lemma FeedKeepsFrames(chunks: seq<seq<Byte>>)
    ensures Complete(Framing.FeedAll(Framing.Rtr, chunks).frames)
  {
    hide Framing.FeedAll, Framing.Drain;
    Framing.ChunkingIrrelevant(Framing.Rtr, chunks);
    FramesComplete(Flatten(chunks));
  }

  /** The PDUs that a read completed, in order, up to the first that ends the session. */
  method HandleNew(client: RtrClient, pdus: seq<seq<Byte>>, done: nat, ghost start: State) returns (alive: bool)
    requires done <= |pdus| && Complete(pdus) && (client.View(), true) == RunPdus(start, true, pdus[..done])
    modifies client, client.cache
    ensures (client.View(), alive) == RunPdus(start, true, pdus)
  {
    hide Classify, Handle, RunPdus;
    alive := true;
    var k := done;
    while k < |pdus| && alive
      invariant done <= k <= |pdus| && (client.View(), alive) == RunPdus(start, true, pdus[..k])
    {
      assert pdus[..k + 1] == pdus[..k] + [pdus[k]];
      RunPdusAppend(start, true, pdus[..k], [pdus[k]]);
      RunPdusOne(client.View(), pdus[k]);
      alive := client.OnPdu(pdus[k]);
      k := k + 1;
    }
    assert pdus[..k] + pdus[k..] == pdus;
    RunPdusAppend(start, true, pdus[..k], pdus[k..]);
    if alive {
      assert pdus[k..] == [];
      RunPdusNothing(client.View());
    } else {
      RunPdusDead(client.View(), pdus[k..]);
    }
  }

  /** The PDUs of each of several connections. */
  ghost function Framed(sessions: seq<seq<seq<Byte>>>): (r: seq<seq<seq<Byte>>>)
    ensures |r| == |sessions| && CompleteSessions(r)
    ensures forall k :: 0 <= k < |r| ==> r[k] == Framing.Drain(Framing.Rtr, Flatten(sessions[k])).frames
  {
    if sessions == [] then []
    else
      FramesComplete(Flatten(Last(sessions)));
      Framed(Front(sessions)) + [Framing.Drain(Framing.Rtr, Flatten(Last(sessions))).frames]
  }

  /** The client over any number of connections, however each was read, ends in the state of `RunSessions`; so
      what holds of that holds of the object. */
  method DriveSessions(sessions: seq<seq<seq<Byte>>>) returns (client: RtrClient)
    ensures client.View() == RunSessions(Framed(sessions))
  {
    hide Handle, RunPdus, Framing.Drain, Flatten;
    client := new RtrClient();
    assert sessions[..0] == [];
    for i := 0 to |sessions|
      invariant fresh(client) && fresh(client.cache)
      invariant client.View() == RunSessions(Framed(sessions[..i]))
    {
      assert Front(sessions[..i + 1]) == sessions[..i] && Last(sessions[..i + 1]) == sessions[i];
      FramedStep(sessions[..i + 1]);
      var _ := Converse(client, sessions[i]);
    }
    assert sessions[..|sessions|] == sessions;
  }

  lemma FramedStep(sessions: seq<seq<seq<Byte>>>)
    requires sessions != []
    ensures Front(Framed(sessions)) == Framed(Front(sessions))
    ensures Last(Framed(sessions)) == Framing.Drain(Framing.Rtr, Flatten(Last(sessions))).frames
  {
  }
}

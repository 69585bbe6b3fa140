/** Peer and speaker sessions (`crates/rbmp-rib/src/session.rs`). */
module RibSession {
  import opened Common
  import opened BigEndian
  import opened RouteTable

  datatype Capability =
    | AddPath(families: seq<(U32, Byte)>)
    | LongLivedGracefulRestart(entries: seq<Byte>)
    | OtherCapability(code: Byte)

  datatype PeerState = Up | Down | Unknown

  /** A snapshot of a peer session. */
  datatype PeerRecord = PeerRecord(
    peerAs: U32,
    localAs: U32,
    holdTime: U16,
    state: PeerState,
    upAt: Option<int>,
    downAt: Option<int>,
    capabilities: seq<Capability>,
    flapCount: U32,
    addPathFamilies: seq<(U32, Byte)>,
    llgrStaleSecs: U32,
    llgrActive: bool)

  function NewPeer(peerAs: U32): PeerRecord {
    PeerRecord(peerAs, 0, 0, Unknown, None, None, [], 0, [], 0, false)
  }

  datatype Session = Session(
    sysName: Option<string>,
    sysDescr: Option<string>,
    connectedAt: int,
    peers: map<Addr, PeerRecord>)

  function NewSession(at: int): Session {
    Session(None, None, at, map[])
  }

  // ---------------------------------------------------------------------------
  // LLGR stale time: the greatest of the complete 7-byte entries
  // ---------------------------------------------------------------------------

  /** The stale time of the `j`-th entry: AFI(2), SAFI(1), flags(1), stale time(3). */
  function StaleTimeAt(entries: seq<Byte>, j: nat): U32
    requires 7 * j + 7 <= |entries|
  {
    GetU24(entries[7 * j + 4..])
  }

  /** An entry puts its stale time into its last three octets, big-endian, whatever stands before and behind it. */
  lemma StaleTimeOfEntry(before: seq<Byte>, afi: U16, safi: Byte, flags: Byte, secs: U32, behind: seq<Byte>)
    requires |before| % 7 == 0 && secs < 0x100_0000
    ensures var entries := before + ([afi / 256, afi % 256, safi, flags, secs / 0x1_0000, secs / 256 % 256, secs % 256]
                                     + behind);
            7 * (|before| / 7) + 7 <= |entries| && StaleTimeAt(entries, |before| / 7) == secs
  {
  }

  /** `secs` is the greatest advertised stale time, 0 when there is none. */
  ghost predicate GreatestStaleTime(entries: seq<Byte>, secs: U32) {
    && (forall j :: 0 <= j && 7 * j + 7 <= |entries| ==> StaleTimeAt(entries, j) <= secs)
    && (secs == 0 || exists j :: 0 <= j && 7 * j + 7 <= |entries| && StaleTimeAt(entries, j) == secs)
  }

  lemma GreatestStaleTimeUnique(entries: seq<Byte>, a: U32, b: U32)
    requires GreatestStaleTime(entries, a) && GreatestStaleTime(entries, b)
    ensures a == b
  {
  }

  method MaxStaleTime(entries: seq<Byte>) returns (maxSecs: U32)
    ensures GreatestStaleTime(entries, maxSecs)
  {
    maxSecs := 0;
    var i := 0;
    ghost var n := 0;
    while i + 7 <= |entries|
      invariant i == 7 * n && 0 <= n
      invariant forall j :: 0 <= j < n && 7 * j + 7 <= |entries| ==> StaleTimeAt(entries, j) <= maxSecs
      invariant maxSecs == 0
                || exists j :: 0 <= j && 7 * j + 7 <= |entries| && StaleTimeAt(entries, j) == maxSecs
      decreases |entries| - i
    {
      var t := GetU24(entries[i + 4..]);
      assert t == StaleTimeAt(entries, n);
      if t > maxSecs {
        maxSecs := t;
      }
      i, n := i + 7, n + 1;
    }
  }

  /** The first LLGR capability decides; without one the stale time is 0. */
  ghost predicate NegotiatedStaleTime(caps: seq<Capability>, secs: U32) {
    if caps == [] then secs == 0
    else if caps[0].LongLivedGracefulRestart? then GreatestStaleTime(caps[0].entries, secs)
    else NegotiatedStaleTime(caps[1..], secs)
  }

  function FirstAddPath(caps: seq<Capability>): seq<(U32, Byte)> {
    if caps == [] then [] else if caps[0].AddPath? then caps[0].families else FirstAddPath(caps[1..])
  }

  /** The first Add-Path capability gives the families, the first LLGR capability the stale time. */
  lemma {:induction false} FirstCapabilityDecides(caps: seq<Capability>, i: nat)
    requires i < |caps|
    ensures caps[i].AddPath? && (forall j :: 0 <= j < i ==> !caps[j].AddPath?) ==> FirstAddPath(caps) == caps[i].families
    ensures caps[i].LongLivedGracefulRestart? && (forall j :: 0 <= j < i ==> !caps[j].LongLivedGracefulRestart?) ==>
              forall secs :: NegotiatedStaleTime(caps, secs) <==> GreatestStaleTime(caps[i].entries, secs)
    decreases i
  {
    if i > 0 {
      FirstCapabilityDecides(caps[1..], i - 1);
      forall j | 0 <= j < i - 1 ensures caps[1..][j] == caps[j + 1] {
      }
    }
  }

  lemma {:induction false} NoCapabilityDecides(caps: seq<Capability>)
    ensures (forall j :: 0 <= j < |caps| ==> !caps[j].AddPath?) ==> FirstAddPath(caps) == []
    ensures (forall j :: 0 <= j < |caps| ==> !caps[j].LongLivedGracefulRestart?) ==> NegotiatedStaleTime(caps, 0)
  {
    if caps != [] {
      NoCapabilityDecides(caps[1..]);
    }
  }

  lemma {:induction false} NegotiatedStaleTimeUnique(caps: seq<Capability>, a: U32, b: U32)
    requires NegotiatedStaleTime(caps, a) && NegotiatedStaleTime(caps, b)
    ensures a == b
  {
    if caps == [] {
    } else if caps[0].LongLivedGracefulRestart? {
      GreatestStaleTimeUnique(caps[0].entries, a, b);
    } else {
      NegotiatedStaleTimeUnique(caps[1..], a, b);
    }
  }

  // ---------------------------------------------------------------------------
  // The peer session object
  // ---------------------------------------------------------------------------

  /** What a Peer Up leaves behind. */
  ghost predicate CameUp(before: PeerRecord, localAs: U32, holdTime: U16, caps: seq<Capability>, at: int,
                         after: PeerRecord) {
    && NegotiatedStaleTime(caps, after.llgrStaleSecs)
    && after == before.(
         localAs := localAs, holdTime := holdTime, state := Up, upAt := Some(at), capabilities := caps,
         flapCount := if before.state == Up then (before.flapCount + 1) % 0x1_0000_0000 else before.flapCount,
         addPathFamilies := FirstAddPath(caps),
         llgrStaleSecs := after.llgrStaleSecs, llgrActive := after.llgrStaleSecs > 0)
  }

  function WentDown(before: PeerRecord, at: int): PeerRecord {
    before.(state := Down, downAt := Some(at))
  }

  class PeerSession {
    var record: PeerRecord

    constructor (record: PeerRecord)
      ensures this.record == record
    {
      this.record := record;
    }

    method OnUp(localAs: U32, holdTime: U16, caps: seq<Capability>, at: int)
      modifies this
      ensures CameUp(old(record), localAs, holdTime, caps, at, record)
    {
      if record.state == Up {
        record := record.(flapCount := (record.flapCount + 1) % 0x1_0000_0000);
      }
      record := record.(state := Up, upAt := Some(at), localAs := localAs, holdTime := holdTime);
      record := record.(addPathFamilies := FirstAddPath(caps));
      var i, secs: U32 := 0, 0;
      while i < |caps|
        invariant i <= |caps| && secs == 0
        invariant forall s :: NegotiatedStaleTime(caps[i..], s) ==> NegotiatedStaleTime(caps, s)
        decreases |caps| - i
      {
        if caps[i].LongLivedGracefulRestart? {
          secs := MaxStaleTime(caps[i].entries);
          assert NegotiatedStaleTime(caps[i..], secs);
          break;
        }
        assert caps[i..][1..] == caps[i + 1..];
        i := i + 1;
      }
      assert i == |caps| ==> caps[i..] == [];
      record := record.(llgrStaleSecs := secs, llgrActive := secs > 0, capabilities := caps);
    }

    method OnDown(at: int)
      modifies this
      ensures record == WentDown(old(record), at)
    {
      record := record.(state := Down, downAt := Some(at));
    }
  }
}

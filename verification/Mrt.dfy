/**
 MRT BGP4MP records (section 4.4 of RFC 6396): the writer of `crates/rbmp-mrt/src/writer.rs` against
 the reader of `crates/rbmp-mrt/src/reader.rs`.
 */
module Mrt {
  import opened Common
  import opened BigEndian

  datatype IpAddr = V4(octets: seq<Byte>) | V6(octets: seq<Byte>) {
    predicate Valid() { |octets| == if V6? then 16 else 4 }
  }

  datatype BgpState = Idle | Connect | Active | OpenSent | OpenConfirm | Established {
    function Code(): U16 {
      if Idle? then 1 else if Connect? then 2 else if Active? then 3
      else if OpenSent? then 4 else if OpenConfirm? then 5 else 6
    }
  }

  const BGP4MP: U16 := 16
  const MESSAGE_AS4: U16 := 4
  const STATE_CHANGE_AS4: U16 := 5

  datatype Header = Header(peerAs: U32, localAs: U32, iface: U16, peer: IpAddr, local: IpAddr)

  /** What a caller writes: a BGP PDU, or a state change (whose interface index is always 0). */
  datatype Item =
    | Message(ts: int, header: Header, pdu: seq<Byte>)
    | StateChange(ts: int, header: Header, oldState: BgpState, newState: BgpState)
  {
    predicate Valid() {
      header.peer.Valid() && header.local.Valid() && (StateChange? ==> header.iface == 0)
    }

    /** Peer and local address are of one family. */
    predicate OneFamily() { header.peer.V6? == header.local.V6? }

    /** What follows the addresses. */
    function Payload(): seq<Byte> {
      if Message? then pdu else PutU16(oldState.Code()) + PutU16(newState.Code())
    }

    /** The body length the writer declares: both addresses counted with the peer's size. */
    function BodyLen(): nat { 12 + 2 * (if header.peer.V6? then 16 else 4) + |Payload()| }

    function Subtype(): U16 { if Message? then MESSAGE_AS4 else STATE_CHANGE_AS4 }
  }

  /** Seconds since the epoch, floored at zero, cut to 32 bits. */
  function EpochSecs(ts: int): U32 {
    (if ts < 0 then 0 else ts) % 0x1_0000_0000
  }

  // ---------------------------------------------------------------------------
  // Writer
  // ---------------------------------------------------------------------------

  function MrtHeader(ts: U32, mrtType: U16, subtype: U16, length: U32): (b: seq<Byte>)
    ensures |b| == 12
  {
    PutU32(ts) + (PutU16(mrtType) + (PutU16(subtype) + PutU32(length)))
  }

  function PeerHeader(h: Header): seq<Byte> {
    PutU32(h.peerAs) + (PutU32(h.localAs) + (PutU16(h.iface) + PutU16(if h.peer.V6? then 2 else 1)))
  }

  function Body(i: Item): seq<Byte> {
    PeerHeader(i.header) + (i.header.peer.octets + (i.header.local.octets + i.Payload()))
  }

  function Encode(i: Item): seq<Byte> {
    MrtHeader(EpochSecs(i.ts), BGP4MP, i.Subtype(), i.BodyLen() % 0x1_0000_0000) + Body(i)
  }

  class MrtWriter {
    var out: seq<Byte>

    constructor ()
      ensures out == []
    {
      out := [];
    }

    method PutHeader(ts: U32, mrtType: U16, subtype: U16, length: U32)
      modifies this
      ensures out == old(out) + MrtHeader(ts, mrtType, subtype, length)
    {
      var buf := PutU32(ts);
      buf := buf + PutU16(mrtType);
      buf := buf + PutU16(subtype);
      buf := buf + PutU32(length);
      assert buf == MrtHeader(ts, mrtType, subtype, length);
      out := out + buf;
    }

    method PutPeers(h: Header)
      modifies this
      ensures out == old(out) + (PeerHeader(h) + (h.peer.octets + h.local.octets))
    {
      var buf := PutU32(h.peerAs);
      buf := buf + PutU32(h.localAs);
      buf := buf + PutU16(h.iface);
      buf := buf + PutU16(if h.peer.V6? then 2 else 1);
      assert buf == PeerHeader(h);
      buf := buf + h.peer.octets;
      buf := buf + h.local.octets;
      assert buf == PeerHeader(h) + (h.peer.octets + h.local.octets);
      out := out + buf;
    }

    method WriteMessage(ts: int, header: Header, pdu: seq<Byte>)
      modifies this
      ensures out == old(out) + Encode(Message(ts, header, pdu))
    {
      hide MrtHeader, PeerHeader, PutU16, PutU32, Body, EpochSecs;
      ghost var item := Message(ts, header, pdu);
      var addrLen := if header.peer.V6? then 16 else 4;
      var bodyLen := 4 + 4 + 2 + 2 + addrLen + addrLen + |pdu|;
      PutHeader(EpochSecs(ts), BGP4MP, MESSAGE_AS4, bodyLen % 0x1_0000_0000);
      PutPeers(header);
      out := out + pdu;
      BodyJoins(item);
    }

    method WriteStateChange(ts: int, header: Header, oldState: BgpState, newState: BgpState)
      requires header.iface == 0
      modifies this
      ensures out == old(out) + Encode(StateChange(ts, header, oldState, newState))
    {
      hide MrtHeader, PeerHeader, PutU16, PutU32, Body, EpochSecs;
      ghost var item := StateChange(ts, header, oldState, newState);
      var addrLen := if header.peer.V6? then 16 else 4;
      var bodyLen := 4 + 4 + 2 + 2 + addrLen + addrLen + 4;
      PutHeader(EpochSecs(ts), BGP4MP, STATE_CHANGE_AS4, bodyLen % 0x1_0000_0000);
      PutPeers(header);
      BodyJoins(item);
      out := out + PutU16(oldState.Code());
      out := out + PutU16(newState.Code());
    }
  }

  lemma BodyJoins(i: Item)
    ensures Body(i) == PeerHeader(i.header) + (i.header.peer.octets + i.header.local.octets) + i.Payload()
  {
    hide PeerHeader, PutU16;
  }

  // ---------------------------------------------------------------------------
  // Reader
  // ---------------------------------------------------------------------------

  datatype Error = Io | TooShort(need: nat, have: nat)

  datatype MrtRecord = MrtRecord(timestamp: U32, mrtType: U16, subtype: U16, body: seq<Byte>)

  /** One record off the front, and what is left. A header cut short is a clean end of stream; a body
      cut short is an error; both use up the input. */
  function ReadRecord(b: seq<Byte>): (r: (Outcome<Option<MrtRecord>, Error>, seq<Byte>))
    ensures r.0 != Ok(None) ==> |r.1| < |b|
  {
    if |b| < 12 then (Ok(None), [])
    else
      var n := GetU32(b[8..]);
      if |b| - 12 < n then (Err(Io), [])
      else (Ok(Some(MrtRecord(GetU32(b), GetU16(b[4..]), GetU16(b[6..]), b[12..12 + n]))), b[12 + n..])
  }

  /** What the iterator yields, in order. */
  function ReadAll(b: seq<Byte>): seq<Outcome<MrtRecord, Error>>
    decreases |b|
  {
    match ReadRecord(b).0
    case Ok(None) => []
    case Ok(Some(r)) => [Ok(r)] + ReadAll(ReadRecord(b).1)
    case Err(e) => [Err(e)] + ReadAll(ReadRecord(b).1)
    case Panic => []
  }

  class MrtReader {
    var inner: seq<Byte>

    constructor (inner: seq<Byte>)
      ensures this.inner == inner
    {
      this.inner := inner;
    }

    /** One step of the iterator. */
    method Next() returns (item: Option<Outcome<MrtRecord, Error>>)
      modifies this
      ensures inner == ReadRecord(old(inner)).1
      ensures item == match ReadRecord(old(inner)).0
                      case Ok(None) => None
                      case Ok(Some(r)) => Some(Ok(r))
                      case Err(e) => Some(Err(e))
                      case Panic => None
    {
      if |inner| < 12 {
        inner := [];
        return None;
      }
      var hdr := inner[..12];
      var length := GetU32(hdr[8..]);
      if |inner| - 12 < length {
        inner := [];
        return Some(Err(Io));
      }
      var body := inner[12..12 + length];
      item := Some(Ok(MrtRecord(GetU32(hdr), GetU16(hdr[4..]), GetU16(hdr[6..]), body)));
      inner := inner[12 + length..];
    }

    /** Draining the iterator. */
    method Collect() returns (records: seq<Outcome<MrtRecord, Error>>)
      modifies this
      ensures records == ReadAll(old(inner))
    {
      hide ReadRecord;
      records := [];
      assert [] + ReadAll(inner) == ReadAll(inner);
      while true
        invariant ReadAll(old(inner)) == records + ReadAll(inner)
        decreases |inner|
      {
        ghost var before := inner;
        var item := Next();
        match item {
          case None => return;
          case Some(r) =>
            assert ReadAll(before) == [r] + ReadAll(inner);
            records := records + [r];
        }
      }
    }
  }

  /** The common BGP4MP header and the bytes after it; AFI 2 is IPv6, everything else IPv4. */
  function ParseHeader(body: seq<Byte>): Outcome<(Header, seq<Byte>), Error> {
    if |body| < 12 then Err(TooShort(12, |body|))
    else
      var v6 := GetU16(body[10..]) == 2;
      var n := if v6 then 16 else 4;
      if |body| - 12 < 2 * n then Err(TooShort(2 * n, |body| - 12))
      else
        var peer := body[12..12 + n];
        var local := body[12 + n..12 + 2 * n];
        Ok((Header(GetU32(body), GetU32(body[4..]), GetU16(body[8..]),
                   if v6 then V6(peer) else V4(peer), if v6 then V6(local) else V4(local)),
            body[12 + 2 * n..]))
  }

  function ParseStateChange(body: seq<Byte>): Outcome<(Header, U16, U16), Error> {
    match ParseHeader(body)
    case Ok((h, rest)) =>
      if |rest| < 4 then Err(TooShort(4, |rest|)) else Ok((h, GetU16(rest), GetU16(rest[2..])))
    case Err(e) => Err(e)
    case Panic => Panic
  }

  // ---------------------------------------------------------------------------
  // Round trip
  // ---------------------------------------------------------------------------

  lemma MrtHeaderRead(ts: U32, mrtType: U16, subtype: U16, length: U32, rest: seq<Byte>)
    ensures var b := MrtHeader(ts, mrtType, subtype, length) + rest;
            && GetU32(b) == ts && GetU16(b[4..]) == mrtType && GetU16(b[6..]) == subtype
            && GetU32(b[8..]) == length && b[12..] == rest
  {
  }

  lemma PeerHeaderRead(h: Header, rest: seq<Byte>)
    ensures var b := PeerHeader(h) + rest;
            && |PeerHeader(h)| == 12
            && GetU32(b) == h.peerAs && GetU32(b[4..]) == h.localAs && GetU16(b[8..]) == h.iface
            && GetU16(b[10..]) == (if h.peer.V6? then 2 else 1) && b[12..] == rest
  {
  }

  // ---------------------------------------------------------------------------
  // Records as octets (sections 2, 4.4.2 and 4.4.3 of RFC 6396)
  // ---------------------------------------------------------------------------

  /** State codes are those of the standard, 1 to 6, and tell the states apart. */
  lemma StateCodes(a: BgpState, b: BgpState)
    ensures Idle.Code() == 1 && Connect.Code() == 2 && Active.Code() == 3
    ensures OpenSent.Code() == 4 && OpenConfirm.Code() == 5 && Established.Code() == 6
    ensures a.Code() == b.Code() ==> a == b
  {
  }

  /** Times within 1970 to 2106 are written as they are, earlier ones as 0. */
  lemma EpochSecsMeans(ts: int)
    ensures 0 <= ts < 0x1_0000_0000 ==> EpochSecs(ts) == ts
    ensures ts < 0 ==> EpochSecs(ts) == 0
  {
  }

  /** Where everything stands in a written record: time, type 16, subtype 4 or 5, length; ASNs, interface, family 1
      or 2; peer address, local address; then the PDU or the two state codes. */
  lemma RecordLayout(i: Item)
    requires i.Valid() && i.OneFamily() && i.BodyLen() < 0x1_0000_0000
    ensures var b, n := Encode(i), if i.header.peer.V6? then 16 else 4;
            && |b| == 24 + 2 * n + |i.Payload()|
            && Number(b[..4]) == EpochSecs(i.ts)
            && b[4..8] == [0, 16, 0, if i.Message? then 4 else 5]
            && Number(b[8..12]) == |b| - 12
            && Number(b[12..16]) == i.header.peerAs && Number(b[16..20]) == i.header.localAs
            && Number(b[20..22]) == i.header.iface
            && b[22..24] == [0, if i.header.peer.V6? then 2 else 1]
            && b[24..24 + n] == i.header.peer.octets && b[24 + n..24 + 2 * n] == i.header.local.octets
            && (i.Message? ==> b[24 + 2 * n..] == i.pdu)
            && (i.StateChange? ==> b[24 + 2 * n..] == [0, i.oldState.Code(), 0, i.newState.Code()])
  {
    hide Number, PutU32, GetU32, Body, MrtHeader, PeerHeader;
    BodyLayout(i);
    PeerHeaderLayout(i.header);
    HeaderLayout(EpochSecs(i.ts), BGP4MP, i.Subtype(), i.BodyLen());
    RecordJoins(MrtHeader(EpochSecs(i.ts), BGP4MP, i.Subtype(), i.BodyLen()), Body(i), if i.header.peer.V6? then 16 else 4);
  }

  /** The parts of a record are those of its header and its body. */
  lemma RecordJoins(head: seq<Byte>, body: seq<Byte>, n: nat)
    requires |head| == 12 && |body| >= 12 + 2 * n
    ensures var b := head + body;
            && b[..4] == head[..4] && b[4..8] == head[4..8] && b[8..12] == head[8..12]
            && b[12..16] == body[..12][..4] && b[16..20] == body[..12][4..8]
            && b[20..22] == body[..12][8..10] && b[22..24] == body[..12][10..12]
            && b[24..24 + n] == body[12..12 + n] && b[24 + n..24 + 2 * n] == body[12 + n..12 + 2 * n]
            && b[24 + 2 * n..] == body[12 + 2 * n..]
  {
  }

  lemma HeaderLayout(ts: U32, mrtType: U16, subtype: U16, length: U32)
    requires mrtType == 16 && subtype < 256
    ensures var b := MrtHeader(ts, mrtType, subtype, length);
            Number(b[..4]) == ts && b[4..8] == [0, 16, 0, subtype] && Number(b[8..12]) == length
  {
    hide Number, PutU32, GetU32;
    NumberWritten(ts);
    NumberWritten(length);
    var b := MrtHeader(ts, mrtType, subtype, length);
    assert b[..4] == PutU32(ts) && b[8..12] == PutU32(length);
  }

  lemma NumberWritten(n: U32)
    ensures Number(PutU32(n)) == n
  {
    hide Number, PutU32, GetU32;
    ReadersAreBigEndian(PutU32(n));
    assert PutU32(n)[..4] == PutU32(n);
  }

  lemma NumberWritten16(n: U16)
    ensures Number(PutU16(n)) == n
  {
    hide Number, PutU16, GetU16;
    ReadersAreBigEndian(PutU16(n));
    assert PutU16(n)[..2] == PutU16(n);
  }

  lemma PeerHeaderLayout(h: Header)
    ensures var b := PeerHeader(h);
            && |b| == 12 && Number(b[..4]) == h.peerAs && Number(b[4..8]) == h.localAs && Number(b[8..10]) == h.iface
            && b[10..12] == [0, if h.peer.V6? then 2 else 1]
  {
    hide Number, PutU32, GetU32;
    var b := PeerHeader(h);
    NumberWritten(h.peerAs);
    NumberWritten(h.localAs);
    NumberWritten16(h.iface);
    assert b[..4] == PutU32(h.peerAs);
    assert b[4..8] == PutU32(h.localAs);
    assert b[8..10] == PutU16(h.iface);
  }

  lemma PayloadLayout(i: Item)
    ensures i.StateChange? ==> i.Payload() == [0, i.oldState.Code(), 0, i.newState.Code()]
  {
  }

  lemma BodyLayout(i: Item)
    requires i.Valid() && i.OneFamily()
    ensures var b, n := Body(i), if i.header.peer.V6? then 16 else 4;
            && |b| == 12 + 2 * n + |i.Payload()|
            && b[..12] == PeerHeader(i.header)
            && b[12..12 + n] == i.header.peer.octets && b[12 + n..12 + 2 * n] == i.header.local.octets
            && b[12 + 2 * n..] == i.Payload()
            && (i.StateChange? ==> i.Payload() == [0, i.oldState.Code(), 0, i.newState.Code()])
  {
    hide PeerHeader, GetU32, GetU16, PutU16;
    PayloadLayout(i);
    PeerHeaderLayout(i.header);
    var head, h := PeerHeader(i.header), i.header;
    var b, n := Body(i), if i.header.peer.V6? then 16 else 4;
    assert b == head + (h.peer.octets + (h.local.octets + i.Payload()));
    assert b[12..] == h.peer.octets + (h.local.octets + i.Payload());
    assert b[12..12 + n] == h.peer.octets;
    assert b[12 + n..12 + 2 * n] == h.local.octets;
    assert b[12 + 2 * n..] == i.Payload();
  }

  /** A stream cut short anywhere behind whole records: with less than a header left it just ends, with more the
      record it cuts is an error. */
  lemma {:induction false} TruncatedStream(items: seq<Item>, cut: Item, n: nat)
    requires forall k :: 0 <= k < |items| ==>
               items[k].Valid() && items[k].OneFamily() && items[k].BodyLen() < 0x1_0000_0000
    requires cut.Valid() && cut.OneFamily() && cut.BodyLen() < 0x1_0000_0000 && n < |Encode(cut)|
    ensures ReadAll(EncodeAll(items) + Encode(cut)[..n])
            == RecordsOf(items) + if n < 12 then [] else [Err(Io)]
  {
    hide ReadRecord, Encode, RecordOf, ReadAll, EncodeAll, RecordsOf;
    var partial := Encode(cut)[..n];
    if items == [] {
      NothingWritten();
      assert [] + partial == partial;
      CutRecord(cut, n);
      EmptyStreamEnds();
      ReadAllTurn(partial);
    } else {
      OneMoreWritten(items);
      var rest := EncodeAll(items[1..]) + partial;
      assert EncodeAll(items) + partial == Encode(items[0]) + rest;
      ReadEncoded(items[0], rest);
      ReadAllTurn(Encode(items[0]) + rest);
      TruncatedStream(items[1..], cut, n);
    }
  }

  lemma NothingWritten()
    ensures EncodeAll([]) == [] && RecordsOf([]) == []
  {
  }

  lemma OneMoreWritten(items: seq<Item>)
    requires items != []
    ensures EncodeAll(items) == Encode(items[0]) + EncodeAll(items[1..])
    ensures RecordsOf(items) == [Ok(RecordOf(items[0]))] + RecordsOf(items[1..])
  {
    hide Encode, RecordOf;
  }

  lemma ReadAllTurn(b: seq<Byte>)
    ensures ReadAll(b) == match ReadRecord(b).0
                          case Ok(None) => []
                          case Ok(Some(r)) => [Ok(r)] + ReadAll(ReadRecord(b).1)
                          case Err(e) => [Err(e)] + ReadAll(ReadRecord(b).1)
                          case Panic => []
  {
    hide ReadRecord;
  }

  lemma CutRecord(cut: Item, n: nat)
    requires cut.Valid() && cut.OneFamily() && cut.BodyLen() < 0x1_0000_0000 && n < |Encode(cut)|
    ensures ReadRecord(Encode(cut)[..n]) == (if n < 12 then Ok(None) else Err(Io), [])
  {
    hide MrtHeader, Body, GetU32, GetU16;
    BodyRoundTrip(cut);
    MrtHeaderRead(EpochSecs(cut.ts), BGP4MP, cut.Subtype(), cut.BodyLen(), Body(cut));
    if n >= 12 {
      SameLength(Encode(cut)[..n], Encode(cut));
    }
  }

  lemma SameLength(a: seq<Byte>, b: seq<Byte>)
    requires |a| >= 12 && a <= b
    ensures GetU32(a[8..]) == GetU32(b[8..])
  {
    assert a[8..][..4] == b[8..][..4];
    ReadersAreBigEndian(a[8..]);
    ReadersAreBigEndian(b[8..]);
  }

  /** The reader of a BGP4MP body needs 12 octets and two addresses, of 16 octets each for family 2 and of 4 for
      any other. */
  lemma ShortBodies(body: seq<Byte>)
    ensures |body| < 12 ==> ParseHeader(body) == Err(TooShort(12, |body|))
    ensures |body| >= 12 ==>
              var n := if body[10..12] == [0, 2] then 16 else 4;
              if |body| < 12 + 2 * n then ParseHeader(body) == Err(TooShort(2 * n, |body| - 12))
              else ParseHeader(body).Ok? && |ParseHeader(body).value.1| == |body| - 12 - 2 * n
  {
    hide GetU32;
    if |body| >= 12 {
      assert body[10..12] == [body[10], body[11]];
    }
  }

  /** The record the reader hands back for an item. */
  function RecordOf(i: Item): MrtRecord {
    MrtRecord(EpochSecs(i.ts), BGP4MP, i.Subtype(), Body(i))
  }

  /** A record body parses to the header and payload that were written. */
  lemma BodyRoundTrip(i: Item)
    requires i.Valid() && i.OneFamily()
    ensures |Body(i)| == i.BodyLen()
    ensures ParseHeader(Body(i)) == Ok((i.header, i.Payload()))
    ensures i.StateChange? ==>
              ParseStateChange(Body(i)) == Ok((i.header, i.oldState.Code(), i.newState.Code()))
  {
    hide PeerHeader, GetU32, GetU16, PutU16;
    var h := i.header;
    PeerHeaderRead(h, h.peer.octets + (h.local.octets + i.Payload()));
    BodyLayout(i);
    if i.StateChange? {
      ReadBackU16(i.oldState.Code(), PutU16(i.newState.Code()));
    }
  }

  lemma ReadEncoded(i: Item, rest: seq<Byte>)
    requires i.Valid() && i.OneFamily() && i.BodyLen() < 0x1_0000_0000
    ensures ReadRecord(Encode(i) + rest) == (Ok(Some(RecordOf(i))), rest)
  {
    hide MrtHeader, Body, GetU32, GetU16;
    BodyRoundTrip(i);
    assert Encode(i) + rest
           == MrtHeader(EpochSecs(i.ts), BGP4MP, i.Subtype(), i.BodyLen()) + (Body(i) + rest);
    MrtHeaderRead(EpochSecs(i.ts), BGP4MP, i.Subtype(), i.BodyLen(), Body(i) + rest);
    var b := Encode(i) + rest;
    assert b[12..12 + i.BodyLen()] == (Body(i) + rest)[..i.BodyLen()] == Body(i);
    assert b[12 + i.BodyLen()..] == (Body(i) + rest)[i.BodyLen()..] == rest;
  }

  function EncodeAll(items: seq<Item>): seq<Byte> {
    if items == [] then [] else Encode(items[0]) + EncodeAll(items[1..])
  }

  function RecordsOf(items: seq<Item>): (rs: seq<Outcome<MrtRecord, Error>>)
    ensures |rs| == |items|
  {
    seq(|items|, i requires 0 <= i < |items| => Ok(RecordOf(items[i])))
  }

  /** Any list of messages and state changes reads back record by record, then the stream ends. */
  lemma {:induction false} StreamRoundTrip(items: seq<Item>)
    requires forall k :: 0 <= k < |items| ==>
               items[k].Valid() && items[k].OneFamily() && items[k].BodyLen() < 0x1_0000_0000
    ensures ReadAll(EncodeAll(items)) == RecordsOf(items)
    ensures forall k :: 0 <= k < |items| ==>
              ParseHeader(RecordOf(items[k]).body) == Ok((items[k].header, items[k].Payload()))
  {
    hide ReadRecord, Encode, RecordOf, ParseHeader;
    if items == [] {
      EmptyStreamEnds();
    } else {
      ReadEncoded(items[0], EncodeAll(items[1..]));
      StreamRoundTrip(items[1..]);
      assert RecordsOf(items) == [Ok(RecordOf(items[0]))] + RecordsOf(items[1..]);
      RecordParses(items[0]);
      assert forall k :: 1 <= k < |items| ==> items[k] == items[1..][k - 1];
    }
  }

  lemma RecordParses(i: Item)
    requires i.Valid() && i.OneFamily()
    ensures ParseHeader(RecordOf(i).body) == Ok((i.header, i.Payload()))
  {
    BodyRoundTrip(i);
  }

  lemma EmptyStreamEnds()
    ensures ReadAll([]) == []
  {
  }

  /** The item's header comes back from the record its encoding is read as. */
  ghost predicate HeaderSurvives(i: Item, rest: seq<Byte>) {
    match ReadRecord(Encode(i) + rest).0
    case Ok(Some(r)) => (match ParseHeader(r.body)
                         case Ok((h, _)) => h == i.header
                         case _ => false)
    case _ => false
  }

  /** One family is also necessary: the reader takes both addresses to be of the peer's family. */
  lemma HeaderSurvivesIff(i: Item, rest: seq<Byte>)
    requires i.Valid() && i.BodyLen() < 0x1_0000_0000
    ensures HeaderSurvives(i, rest) <==> i.OneFamily()
  {
    if i.OneFamily() {
      ReadEncoded(i, rest);
      BodyRoundTrip(i);
    } else {
      MixedFamiliesMisread(i, rest);
    }
  }

  lemma MixedFamiliesMisread(i: Item, rest: seq<Byte>)
    requires i.Valid() && i.BodyLen() < 0x1_0000_0000 && !i.OneFamily()
    ensures !HeaderSurvives(i, rest)
  {
  }
}

/**
 SR Policy segments with nested sub-lists (`parse_segments` in `crates/rbmp-core/src/bgp/srpolicy.rs`).
 On the wire a segment is type, length, flags, reserved, data; the length counts flags, reserved and data.
 */
module SrSegments {
  import opened Common
  import opened BigEndian

  datatype Segment =
    | MplsLabel(value: nat, tc: nat, s: bool, ttl: Byte)
    | Srv6Sid(sid: seq<Byte>, behavior: Option<U16>)
    | Ipv4Prefix(addr: seq<Byte>, prefixLen: Byte, algorithm: Byte)
    | Ipv6Prefix(addr: seq<Byte>, prefixLen: Byte, algorithm: Byte)
    | Ipv4Adjacency(localId: U32, remoteId: U32)
    | Ipv4Interface(localAddr: seq<Byte>, remoteAddr: seq<Byte>)
    | Ipv6LocalAdj(localId: U32, localAddr: seq<Byte>, remoteAddr: seq<Byte>)
    | Ipv6Adjacency(localId: U32, remoteId: U32, localAddr: seq<Byte>, remoteAddr: seq<Byte>)
    | Ipv4NextHop(nexthop: seq<Byte>, algorithm: Byte)
    | Ipv6NextHop(nexthop: seq<Byte>, algorithm: Byte)
    | SubList(subSegments: seq<Segment>)
    | Unknown(segType: Byte, data: seq<Byte>)

  // ---------------------------------------------------------------------------
  // The parser
  // ---------------------------------------------------------------------------

  /** The shortest data that the arm of a type accepts. Types without an arm take none. */
  function MinData(t: Byte): Option<nat> {
    if t == 1 then Some(3) else if t == 2 then Some(16) else if t == 3 then Some(6)
    else if t == 4 then Some(18) else if t == 5 then Some(8) else if t == 6 then Some(8)
    else if t == 7 then Some(36) else if t == 8 then Some(40) else if t == 9 then Some(5)
    else if t == 10 then Some(17) else if t == 11 then Some(0) else None
  }

  predicate HasArm(t: Byte, n: nat) {
    MinData(t).Some? && n >= MinData(t).value
  }

  /** A segment from its type and data; `nested` is what the data parses to, for a sub-list. The label
      is what is left of 24 bits above TC, S and TTL, so it has 12 bits. */
  function Interpret(t: Byte, d: seq<Byte>, nested: seq<Segment>): Segment {
    if !HasArm(t, |d|) then Unknown(t, d)
    else if t == 1 then
      var raw := GetU24(d);
      MplsLabel(raw / 4096, raw / 512 % 8, raw / 256 % 2 != 0, raw % 256)
    else if t == 2 then Srv6Sid(d[..16], if |d| >= 18 then Some(GetU16(d[16..])) else None)
    else if t == 3 then Ipv4Prefix(d[..4], d[4], d[5])
    else if t == 4 then Ipv6Prefix(d[..16], d[16], d[17])
    else if t == 5 then Ipv4Adjacency(GetU32(d), GetU32(d[4..]))
    else if t == 6 then Ipv4Interface(d[..4], d[4..8])
    else if t == 7 then Ipv6LocalAdj(GetU32(d), d[4..20], d[20..36])
    else if t == 8 then Ipv6Adjacency(GetU32(d), GetU32(d[4..]), d[8..24], d[24..40])
    else if t == 9 then Ipv4NextHop(d[..4], d[4])
    else if t == 10 then Ipv6NextHop(d[..16], d[16])
    else SubList(nested)
  }

  /** Parsing stops quietly at the first segment whose length is under 2 or runs past the buffer. The
      data of a sub-list is at least 4 bytes shorter than the buffer around it. */
  function Parse(b: seq<Byte>): seq<Segment>
    decreases |b|
  {
    if |b| < 2 || b[1] < 2 || b[1] + 2 > |b| then []
    else
      var d := b[4..b[1] + 2];
      [Interpret(b[0], d, if b[0] == 11 then Parse(d) else [])] + Parse(b[b[1] + 2..])
  }

  /** The loop of the source, with its cursor; a sub-list is a recursive call. */
  method ParseSegments(buf: seq<Byte>) returns (segs: seq<Segment>)
    ensures segs == Parse(buf)
    decreases |buf|
  {
    hide Interpret, Parse;
    segs := [];
    var pos := 0;
    assert buf[0..] == buf && [] + Parse(buf) == Parse(buf);
    while pos + 2 <= |buf|
      invariant 0 <= pos <= |buf|
      invariant Parse(buf) == segs + Parse(buf[pos..])
      decreases |buf| - pos
    {
      var segType, segLen: nat := buf[pos], buf[pos + 1];
      ParseAt(buf, pos);
      if segLen < 2 || pos + 2 + segLen - 2 > |buf| {
        return;
      }
      var start, dataLen := pos + 4, segLen - 2;
      if start + dataLen > |buf| {
        return;
      }
      var data := buf[start..start + dataLen];
      var nested: seq<Segment> := [];
      if segType == 11 {
        nested := ParseSegments(data);
      }
      segs := segs + [Interpret(segType, data, nested)];
      pos := start + dataLen;
    }
    ParseShort(buf[pos..]);
  }

  /** One turn of the parser, in the coordinates of the whole buffer. */
  lemma ParseAt(buf: seq<Byte>, pos: nat)
    requires pos + 2 <= |buf|
    ensures var n: nat := buf[pos + 1];
            if n < 2 || pos + 2 + n > |buf| then Parse(buf[pos..]) == []
            else
              var d := buf[pos + 4..pos + 2 + n];
              Parse(buf[pos..])
              == [Interpret(buf[pos], d, if buf[pos] == 11 then Parse(d) else [])] + Parse(buf[pos + 2 + n..])
  {
    hide Interpret, Parse;
    var rest := buf[pos..];
    var n: nat := buf[pos + 1];
    assert rest[0] == buf[pos] && rest[1] == n;
    ParseTurn(rest);
    if 2 <= n && pos + 2 + n <= |buf| {
      assert rest[4..n + 2] == buf[pos + 4..pos + 2 + n];
      assert rest[n + 2..] == buf[pos + 2 + n..];
    }
  }

  lemma ParseTurn(b: seq<Byte>)
    requires |b| >= 2
    ensures if b[1] < 2 || b[1] + 2 > |b| then Parse(b) == []
            else
              var d := b[4..b[1] + 2];
              Parse(b) == [Interpret(b[0], d, if b[0] == 11 then Parse(d) else [])] + Parse(b[b[1] + 2..])
  {
    hide Interpret;
  }

  lemma ParseShort(b: seq<Byte>)
    requires |b| < 2
    ensures Parse(b) == []
  {
  }

  // ---------------------------------------------------------------------------
  // Encoding segment trees
  // ---------------------------------------------------------------------------

  function TypeOf(g: Segment): Byte {
    match g
    case MplsLabel(_, _, _, _) => 1
    case Srv6Sid(_, _) => 2
    case Ipv4Prefix(_, _, _) => 3
    case Ipv6Prefix(_, _, _) => 4
    case Ipv4Adjacency(_, _) => 5
    case Ipv4Interface(_, _) => 6
    case Ipv6LocalAdj(_, _, _) => 7
    case Ipv6Adjacency(_, _, _, _) => 8
    case Ipv4NextHop(_, _) => 9
    case Ipv6NextHop(_, _) => 10
    case SubList(_) => 11
    case Unknown(t, _) => t
  }

  /** Fields have the widths of the source's types; an unknown segment is one no arm would take. */
  predicate FieldsFit(g: Segment) {
    match g
    case MplsLabel(value, tc, _, _) => value < 4096 && tc < 8
    case Srv6Sid(sid, _) => |sid| == 16
    case Ipv4Prefix(addr, _, _) => |addr| == 4
    case Ipv6Prefix(addr, _, _) => |addr| == 16
    case Ipv4Adjacency(_, _) => true
    case Ipv4Interface(la, ra) => |la| == 4 && |ra| == 4
    case Ipv6LocalAdj(_, la, ra) => |la| == 16 && |ra| == 16
    case Ipv6Adjacency(_, _, la, ra) => |la| == 16 && |ra| == 16
    case Ipv4NextHop(nh, _) => |nh| == 4
    case Ipv6NextHop(nh, _) => |nh| == 16
    case SubList(_) => true
    case Unknown(t, d) => !HasArm(t, |d|)
  }

  /** Octets of the data, sub-lists included. */
  function DataLen(g: Segment): nat
    decreases g, 1
  {
    match g
    case MplsLabel(_, _, _, _) => 3
    case Srv6Sid(sid, behavior) => if behavior.Some? then 18 else 16
    case Ipv4Prefix(_, _, _) => 6
    case Ipv6Prefix(_, _, _) => 18
    case Ipv4Adjacency(_, _) => 8
    case Ipv4Interface(_, _) => 8
    case Ipv6LocalAdj(_, _, _) => 36
    case Ipv6Adjacency(_, _, _, _) => 40
    case Ipv4NextHop(_, _) => 5
    case Ipv6NextHop(_, _) => 17
    case SubList(subs) => ListLen(subs)
    case Unknown(_, d) => |d|
  }

  function ListLen(gs: seq<Segment>): nat
    decreases gs, 0
  {
    if gs == [] then 0 else 4 + DataLen(gs[0]) + ListLen(gs[1..])
  }

  /** Every segment of the tree fits its one-byte length field. */
  predicate Encodable(g: Segment)
    decreases g, 1
  {
    FieldsFit(g) && DataLen(g) + 2 < 256 && (g.SubList? ==> AllEncodable(g.subSegments))
  }

  predicate AllEncodable(gs: seq<Segment>)
    decreases gs, 0
  {
    gs == [] || (Encodable(gs[0]) && AllEncodable(gs[1..]))
  }

  /** Flags and reserved octets are not kept by the parser: any values do. */
  datatype Filler = Filler(flags: Byte, reserved: Byte)

  function Leaf(g: Segment): (d: seq<Byte>)
    requires FieldsFit(g) && !g.SubList?
    ensures |d| == DataLen(g)
  {
    match g
    case MplsLabel(value, tc, s, ttl) => PutU24(value * 4096 + tc * 512 + (if s then 256 else 0) + ttl)
    case Srv6Sid(sid, behavior) => sid + (if behavior.Some? then PutU16(behavior.value) else [])
    case Ipv4Prefix(addr, n, algorithm) => addr + [n, algorithm]
    case Ipv6Prefix(addr, n, algorithm) => addr + [n, algorithm]
    case Ipv4Adjacency(l, r) => PutU32(l) + PutU32(r)
    case Ipv4Interface(la, ra) => la + ra
    case Ipv6LocalAdj(l, la, ra) => PutU32(l) + la + ra
    case Ipv6Adjacency(l, r, la, ra) => PutU32(l) + PutU32(r) + la + ra
    case Ipv4NextHop(nh, algorithm) => nh + [algorithm]
    case Ipv6NextHop(nh, algorithm) => nh + [algorithm]
    case Unknown(_, d) => d
  }

  function Data(g: Segment, fill: Filler): (d: seq<Byte>)
    requires Encodable(g)
    ensures |d| == DataLen(g)
    decreases g, 1
  {
    if g.SubList? then EncodeAll(g.subSegments, fill) else Leaf(g)
  }

  function EncodeAll(gs: seq<Segment>, fill: Filler): (b: seq<Byte>)
    requires AllEncodable(gs)
    ensures |b| == ListLen(gs)
    decreases gs, 0
  {
    if gs == [] then []
    else [TypeOf(gs[0]), DataLen(gs[0]) + 2, fill.flags, fill.reserved] + Data(gs[0], fill)
         + EncodeAll(gs[1..], fill)
  }

  // ---------------------------------------------------------------------------
  // Round trip
  // ---------------------------------------------------------------------------

  lemma LabelBits(value: nat, tc: nat, s: bool, ttl: Byte)
    requires value < 4096 && tc < 8
    ensures var raw := value * 4096 + tc * 512 + (if s then 256 else 0) + ttl;
            raw < 0x100_0000 && raw / 4096 == value && raw / 512 % 8 == tc
            && (raw / 256 % 2 != 0) == s && raw % 256 == ttl
  {
    var bit := if s then 1 else 0;
    var raw := value * 4096 + tc * 512 + bit * 256 + ttl;
    DivRem(raw, 4096, value, tc * 512 + bit * 256 + ttl);
    DivRem(raw, 512, value * 8 + tc, bit * 256 + ttl);
    DivRem(value * 8 + tc, 8, value, tc);
    DivRem(raw, 256, value * 16 + tc * 2 + bit, ttl);
    DivRem(value * 16 + tc * 2 + bit, 2, value * 8 + tc, bit);
  }

  lemma DivRem(n: nat, d: nat, q: nat, r: nat)
    requires d == 2 || d == 8 || d == 256 || d == 512 || d == 4096
    requires n == d * q + r && r < d
    ensures n / d == q && n % d == r
  {
  }

  /** The parts of a concatenation, cut out again. */
  lemma Parts(a: seq<Byte>, b: seq<Byte>, c: seq<Byte>)
    ensures (a + b + c)[..|a|] == a
    ensures (a + b + c)[|a|..|a| + |b|] == b
    ensures (a + b + c)[|a| + |b|..|a| + |b| + |c|] == c
  {
  }

  lemma LeafInterpreted(g: Segment, nested: seq<Segment>)
    requires FieldsFit(g) && !g.SubList?
    ensures Interpret(TypeOf(g), Leaf(g), nested) == g
  {
    hide GetU24, GetU32, GetU16, PutU16, PutU24, PutU32;
    var d := Leaf(g);
    match g {
      case MplsLabel(value, tc, s, ttl) => LabelBits(value, tc, s, ttl);
      case Srv6Sid(_, _) => SidInterpreted(g, nested);
      case Ipv4Prefix(addr, _, _) => assert d[..4] == addr;
      case Ipv6Prefix(addr, _, _) => assert d[..16] == addr;
      case Ipv4Adjacency(l, r) => TwoIds(l, r, []);
      case Ipv4Interface(la, ra) => assert d[..4] == la && d[4..8] == ra;
      case Ipv6LocalAdj(_, _, _) => AdjacencyInterpreted(g, nested);
      case Ipv6Adjacency(_, _, _, _) => AdjacencyInterpreted(g, nested);
      case Ipv4NextHop(nh, _) => assert d[..4] == nh;
      case Ipv6NextHop(nh, _) => assert d[..16] == nh;
      case Unknown(_, _) =>
    }
  }

  lemma SidInterpreted(g: Segment, nested: seq<Segment>)
    requires FieldsFit(g) && g.Srv6Sid?
    ensures Interpret(2, Leaf(g), nested) == g
  {
    var d := Leaf(g);
    assert d[..16] == g.sid;
    if g.behavior.Some? {
      assert d[16..] == PutU16(g.behavior.value);
    }
  }

  lemma AdjacencyInterpreted(g: Segment, nested: seq<Segment>)
    requires FieldsFit(g) && (g.Ipv6LocalAdj? || g.Ipv6Adjacency?)
    ensures Interpret(TypeOf(g), Leaf(g), nested) == g
  {
    hide GetU32, PutU32;
    var d := Leaf(g);
    var la, ra := g.localAddr, g.remoteAddr;
    if g.Ipv6LocalAdj? {
      Parts(PutU32(g.localId), la, ra);
      assert d == PutU32(g.localId) + (la + ra);
      ReadBackU32(g.localId, la + ra);
    } else {
      Parts(PutU32(g.localId) + PutU32(g.remoteId), la, ra);
      assert d == PutU32(g.localId) + PutU32(g.remoteId) + (la + ra);
      TwoIds(g.localId, g.remoteId, la + ra);
    }
  }

  lemma TwoIds(l: U32, r: U32, rest: seq<Byte>)
    ensures var d := PutU32(l) + PutU32(r) + rest; GetU32(d) == l && GetU32(d[4..]) == r
    ensures PutU32(l) + PutU32(r) + [] == PutU32(l) + PutU32(r)
  {
  }

  /** One framed segment in front of any bytes. */
  lemma ParseFramed(t: Byte, d: seq<Byte>, fill: Filler, rest: seq<Byte>)
    requires |d| + 2 < 256
    ensures Parse([t, |d| + 2, fill.flags, fill.reserved] + d + rest)
            == [Interpret(t, d, if t == 11 then Parse(d) else [])] + Parse(rest)
  {
  }

  /** Parsing the encoding of any segment tree returns the tree. */
  lemma {:induction false} ParseEncoded(gs: seq<Segment>, fill: Filler)
    requires AllEncodable(gs)
    ensures Parse(EncodeAll(gs, fill)) == gs
    decreases gs
  {
    hide Interpret, Leaf, FieldsFit, DataLen;
    if gs != [] {
      var g := gs[0];
      ParseFramed(TypeOf(g), Data(g, fill), fill, EncodeAll(gs[1..], fill));
      ParseEncoded(gs[1..], fill);
      SegmentInterpreted(g, fill);
      assert gs == [g] + gs[1..];
    }
  }

  lemma {:induction false} SegmentInterpreted(g: Segment, fill: Filler)
    requires Encodable(g)
    ensures var d := Data(g, fill);
            Interpret(TypeOf(g), d, if TypeOf(g) == 11 then Parse(d) else []) == g
    decreases g
  {
    if g.SubList? {
      ParseEncoded(g.subSegments, fill);
    } else {
      LeafInterpreted(g, []);
      LeafInterpreted(g, if TypeOf(g) == 11 then Parse(Leaf(g)) else []);
    }
  }

  /** Parsing goes on behind whole segments: whatever follows them is parsed as if it stood alone, and stops at the
      first length that is under 2 or runs past the end. */
  lemma {:induction false} ParseBehind(gs: seq<Segment>, fill: Filler, rest: seq<Byte>)
    requires AllEncodable(gs)
    ensures Parse(EncodeAll(gs, fill) + rest) == gs + Parse(rest)
    ensures |rest| < 2 || rest[1] < 2 || rest[1] + 2 > |rest| ==> Parse(rest) == []
    decreases gs
  {
    hide Interpret, FieldsFit, Data, EncodeAll, Parse;
    ParseStops(rest);
    if gs == [] {
      NothingEncoded(fill);
      assert [] + rest == rest && [] + Parse(rest) == Parse(rest);
    } else {
      var g := gs[0];
      var d, tail := Data(g, fill), EncodeAll(gs[1..], fill);
      EncodeUnfold(gs, fill);
      assert EncodeAll(gs, fill) + rest == [TypeOf(g), |d| + 2, fill.flags, fill.reserved] + d + (tail + rest);
      ParseFramed(TypeOf(g), d, fill, tail + rest);
      ParseBehind(gs[1..], fill, rest);
      SegmentInterpreted(g, fill);
      assert gs == [g] + gs[1..];
    }
  }

  lemma NothingEncoded(fill: Filler)
    ensures EncodeAll([], fill) == []
  {
  }

  lemma EncodeUnfold(gs: seq<Segment>, fill: Filler)
    requires gs != [] && AllEncodable(gs)
    ensures var g := gs[0];
            |Data(g, fill)| + 2 < 256
            && EncodeAll(gs, fill)
               == [TypeOf(g), |Data(g, fill)| + 2, fill.flags, fill.reserved] + Data(g, fill) + EncodeAll(gs[1..], fill)
  {
    hide Data, FieldsFit;
  }

  lemma ParseStops(rest: seq<Byte>)
    ensures |rest| < 2 || rest[1] < 2 || rest[1] + 2 > |rest| ==> Parse(rest) == []
  {
  }

  // ---------------------------------------------------------------------------
  // Segment types as octets
  // ---------------------------------------------------------------------------

  /** One segment in front of any bytes, for the types with short fixed layouts: the fields stand in this order. */
  lemma ShortSegments(fill: Filler, a: seq<Byte>, b: seq<Byte>, x: Byte, y: Byte, rest: seq<Byte>)
    requires |a| == |b| == 4
    ensures Parse([3, 8, fill.flags, fill.reserved] + (a + [x, y]) + rest) == [Ipv4Prefix(a, x, y)] + Parse(rest)
    ensures Parse([5, 10, fill.flags, fill.reserved] + (a + b) + rest)
            == [Ipv4Adjacency(GetU32(a), GetU32(b))] + Parse(rest)
    ensures Parse([6, 10, fill.flags, fill.reserved] + (a + b) + rest) == [Ipv4Interface(a, b)] + Parse(rest)
    ensures Parse([9, 7, fill.flags, fill.reserved] + (a + [x]) + rest) == [Ipv4NextHop(a, x)] + Parse(rest)
  {
    hide Parse;
    var d3, d56, d9 := a + [x, y], a + b, a + [x];
    ParseFramed(3, d3, fill, rest);
    ParseFramed(5, d56, fill, rest);
    ParseFramed(6, d56, fill, rest);
    ParseFramed(9, d9, fill, rest);
    assert d3[..4] == a && d56[..4] == a && d56[4..8] == b && d9[..4] == a;
  }

  /** The same for the types with IPv6 addresses. */
  lemma LongSegments(fill: Filler, a: seq<Byte>, x: Byte, y: Byte, rest: seq<Byte>)
    requires |a| == 16
    ensures Parse([2, 18, fill.flags, fill.reserved] + a + rest) == [Srv6Sid(a, None)] + Parse(rest)
    ensures Parse([4, 20, fill.flags, fill.reserved] + (a + [x, y]) + rest) == [Ipv6Prefix(a, x, y)] + Parse(rest)
    ensures Parse([10, 19, fill.flags, fill.reserved] + (a + [x]) + rest) == [Ipv6NextHop(a, x)] + Parse(rest)
  {
    hide Parse, GetU32;
    var d4, d10 := a + [x, y], a + [x];
    ParseFramed(2, a, fill, rest);
    ParseFramed(4, d4, fill, rest);
    ParseFramed(10, d10, fill, rest);
    assert a[..16] == a && d4[..16] == a && d10[..16] == a;
  }

  lemma AdjacencySegments(fill: Filler, l: seq<Byte>, r: seq<Byte>, a: seq<Byte>, b: seq<Byte>, rest: seq<Byte>)
    requires |l| == |r| == 4 && |a| == |b| == 16
    ensures Parse([7, 38, fill.flags, fill.reserved] + (l + a + b) + rest)
            == [Ipv6LocalAdj(GetU32(l), a, b)] + Parse(rest)
    ensures Parse([8, 42, fill.flags, fill.reserved] + (l + r + a + b) + rest)
            == [Ipv6Adjacency(GetU32(l), GetU32(r), a, b)] + Parse(rest)
  {
    hide Parse, Interpret;
    ParseFramed(7, l + a + b, fill, rest);
    ParseFramed(8, l + r + a + b, fill, rest);
    AdjacenciesRead(l, r, a, b);
  }

  lemma AdjacenciesRead(l: seq<Byte>, r: seq<Byte>, a: seq<Byte>, b: seq<Byte>)
    requires |l| == |r| == 4 && |a| == |b| == 16
    ensures Interpret(7, l + a + b, []) == Ipv6LocalAdj(GetU32(l), a, b)
    ensures Interpret(8, l + r + a + b, []) == Ipv6Adjacency(GetU32(l), GetU32(r), a, b)
  {
    Parts(l, a, b);
    Parts(l + r, a, b);
  }

  /** Type 11 holds segments; a type without an arm is kept as it is. */
  lemma OtherSegments(fill: Filler, t: Byte, d: seq<Byte>, rest: seq<Byte>)
    requires |d| + 2 < 256
    ensures t == 11 ==>
              Parse([t, |d| + 2, fill.flags, fill.reserved] + d + rest) == [SubList(Parse(d))] + Parse(rest)
    ensures t == 0 || t > 11 ==>
              Parse([t, |d| + 2, fill.flags, fill.reserved] + d + rest) == [Unknown(t, d)] + Parse(rest)
  {
    hide Parse;
    ParseFramed(t, d, fill, rest);
  }

  /** Type 2 with two more octets has a behavior. */
  lemma SidWithBehavior(fill: Filler, sid: seq<Byte>, behavior: seq<Byte>, rest: seq<Byte>)
    requires |sid| == 16 && |behavior| == 2
    ensures Parse([2, 20, fill.flags, fill.reserved] + (sid + behavior) + rest)
            == [Srv6Sid(sid, Some(GetU16(behavior)))] + Parse(rest)
  {
    hide Parse;
    var d := sid + behavior;
    ParseFramed(2, d, fill, rest);
    assert d[..16] == sid && d[16..] == behavior;
  }

  // ---------------------------------------------------------------------------
  // MPLS labels as the standard writes them
  // ---------------------------------------------------------------------------

  predicate LabelFits(g: Segment) {
    g.MplsLabel? && g.value < 0x10_0000 && g.tc < 8
  }

  /** A label stack entry (section 2.1 of RFC 3032): 20 bits of label, 3 of TC, S, 8 of TTL. */
  function StackEntry(g: Segment): U32
    requires LabelFits(g)
  {
    g.value * 4096 + g.tc * 512 + (if g.s then 256 else 0) + g.ttl
  }

  /** What the parser makes of it: it takes the first 24 bits for the whole entry, so every field comes
      from bits further up. */
  function Shifted(g: Segment): Segment
    requires LabelFits(g)
  {
    MplsLabel(g.value / 256, g.value / 32 % 8, g.value / 16 % 2 != 0,
              g.value % 16 * 16 + g.tc * 2 + if g.s then 1 else 0)
  }

  lemma FirstThreeBytes(n: U32)
    ensures GetU24(PutU32(n)) == n / 256
  {
  }

  lemma LabelDigits(v: nat)
    ensures v == v / 256 * 256 + v / 32 % 8 * 32 + v / 16 % 2 * 16 + v % 16
  {
    var sixteens := v / 16;
    var halves := sixteens / 2;
    assert halves == v / 32 && halves / 8 == v / 256;
  }

  lemma EntryBits(g: Segment, raw: nat)
    requires LabelFits(g) && raw == StackEntry(g) / 256
    ensures raw / 4096 == Shifted(g).value && raw / 512 % 8 == Shifted(g).tc
    ensures (raw / 256 % 2 != 0) == Shifted(g).s && raw % 256 == Shifted(g).ttl
  {
    var v, bit := g.value, if g.s then 1 else 0;
    DivRem(StackEntry(g), 256, v * 16 + g.tc * 2 + bit, g.ttl);
    LabelDigits(v);
    LabelBits(v / 256, v / 32 % 8, v / 16 % 2 != 0, v % 16 * 16 + g.tc * 2 + bit);
  }

  lemma ShiftedIff(g: Segment)
    requires LabelFits(g)
    ensures Shifted(g).value == g.value <==> g.value == 0
    ensures Shifted(g) == g <==> g == MplsLabel(0, 0, false, 0)
  {
  }

  lemma EntryInterpreted(g: Segment)
    requires LabelFits(g)
    ensures Interpret(1, PutU32(StackEntry(g)), []) == Shifted(g)
  {
    hide PutU32, GetU24, StackEntry;
    FirstThreeBytes(StackEntry(g));
    EntryBits(g, GetU24(PutU32(StackEntry(g))));
  }

  /** Every standard label stack entry, in a segment of its own in front of any bytes, is read with the label
      divided by 256. The label is right if and only if it is 0, and the segment is if and only if TC, S and
      TTL are 0 as well. */
  lemma StandardLabelIff(g: Segment, fill: Filler, rest: seq<Byte>)
    requires LabelFits(g)
    ensures Parse([1, 6, fill.flags, fill.reserved] + PutU32(StackEntry(g)) + rest) == [Shifted(g)] + Parse(rest)
    ensures Shifted(g).value == g.value <==> g.value == 0
    ensures Shifted(g) == g <==> g == MplsLabel(0, 0, false, 0)
  {
    hide PutU32, Parse, Interpret, StackEntry, Shifted;
    ShiftedIff(g);
    var d := PutU32(StackEntry(g));
    ParseFramed(1, d, fill, rest);
    EntryInterpreted(g);
  }

  /** Label 16000, where the SRGB of many routers starts, is read as 62. */
  lemma LabelMisread(fill: Filler)
    ensures Parse([1, 6, fill.flags, fill.reserved] + PutU32(StackEntry(MplsLabel(16000, 0, true, 64))))
            == [MplsLabel(62, 4, false, 1)]
  {
    hide Parse, PutU32;
    var g := MplsLabel(16000, 0, true, 64);
    StandardLabelIff(g, fill, []);
    assert [1, 6, fill.flags, fill.reserved] + PutU32(StackEntry(g)) + []
           == [1, 6, fill.flags, fill.reserved] + PutU32(StackEntry(g));
    ParseShort([]);
  }
}

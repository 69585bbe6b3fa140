/**
 BGP UPDATE framing: `parse_bgp_update` (`crates/rbmp-core/src/bgp/update.rs`) and the attribute loop
 of `parse_path_attributes` (`crates/rbmp-core/src/bgp/attributes.rs`).
 */
module Update {
  import opened Common
  import opened BigEndian
  import opened BgpErrors
  import opened Nlri
  import AsPath

  // ---------------------------------------------------------------------------
  // Path attributes
  // ---------------------------------------------------------------------------

  datatype RawAttribute = RawAttribute(flags: Byte, typeCode: Byte, value: seq<Byte>)

  /** Flag 0x10: the length field has two octets. */
  predicate Extended(flags: Byte) {
    flags / 16 % 2 == 1
  }

  /** The arms of the source that interpret an attribute; every other one is kept raw. */
  predicate Interpreted(t: Byte, n: nat) {
    || (t == 1 && n >= 1)
    || t == 2
    || ((t == 3 || t == 4 || t == 5 || t == 9 || t == 35) && n == 4)
    || t == 6
    || (t == 7 && (n == 6 || n == 8))
    || t == 8 || t == 10 || t == 16 || t == 17 || t == 23 || t == 29 || t == 30 || t == 32 || t == 40
    || (t == 14 && n >= 4)
    || (t == 15 && n >= 3)
    || (t == 18 && n == 8)
  }

  /** `others` are the interpreted attributes this model does not look into. */
  datatype Attributes = Attributes(
    asPath: Option<AsPath.Path>,
    as4Path: Option<AsPath.Path>,
    med: Option<U32>,
    localPref: Option<U32>,
    others: seq<RawAttribute>,
    unknown: seq<RawAttribute>)

  const NO_ATTRIBUTES := Attributes(None, None, None, None, [], [])

  /** Decides whether the decoder of an interpreted attribute accepts its value. */
  type Handler = RawAttribute -> bool

  function ApplyAttribute(acc: Attributes, a: RawAttribute, handler: Handler): Outcome<Attributes, Error> {
    if !Interpreted(a.typeCode, |a.value|) then Ok(acc.(unknown := acc.unknown + [a]))
    else if a.typeCode == 2 then
      match AsPath.Parse(a.value, false)
      case Ok(p) => Ok(acc.(asPath := Some(p)))
      case Err(e) => Err(e)
      case Panic => Panic
    else if a.typeCode == 17 then
      match AsPath.Parse(a.value, true)
      case Ok(p) => Ok(acc.(as4Path := Some(p)))
      case Err(e) => Err(e)
      case Panic => Panic
    else if a.typeCode == 4 then Ok(acc.(med := Some(GetU32(a.value))))
    else if a.typeCode == 5 then Ok(acc.(localPref := Some(GetU32(a.value))))
    else if handler(a) then Ok(acc.(others := acc.others + [a]))
    else Err(BadAttribute(a.typeCode))
  }

  /** Frames the attribute at the head of a buffer of at least 3 bytes, and says where it ends. */
  function FrameAttribute(b: seq<Byte>): (r: Outcome<(RawAttribute, nat), Error>)
    requires |b| >= 3
    ensures r.Ok? ==> 3 <= r.value.1 <= |b|
    ensures !r.Panic?
  {
    if Extended(b[0]) && |b| - 2 < 2 then Err(UnexpectedEof(2, |b| - 2))
    else
      var n: nat := if Extended(b[0]) then GetU16(b[2..]) else b[2];
      var start := if Extended(b[0]) then 4 else 3;
      if |b| - start < n then Err(TruncatedAttribute(b[1], n, |b| - start))
      else Ok((RawAttribute(b[0], b[1], b[start..start + n]), start + n))
  }

  /** The attribute loop; one or two trailing bytes are ignored. */
  function ParseFrom(b: seq<Byte>, acc: Attributes, handler: Handler): Outcome<Attributes, Error> {
    if |b| < 3 then Ok(acc)
    else
      match FrameAttribute(b)
      case Err(e) => Err(e)
      case Ok((a, n)) =>
        match ApplyAttribute(acc, a, handler)
        case Ok(next) => ParseFrom(b[n..], next, handler)
        case Err(e) => Err(e)
        case Panic => Panic
  }

  function ParsePathAttributes(b: seq<Byte>, handler: Handler): Outcome<Attributes, Error> {
    ParseFrom(b, NO_ATTRIBUTES, handler)
  }

  method ParseAttributeLoop(input: seq<Byte>, handler: Handler) returns (r: Outcome<Attributes, Error>)
    ensures r == ParsePathAttributes(input, handler)
  {
    hide ApplyAttribute;
    var buf, attrs := input, NO_ATTRIBUTES;
    while |buf| >= 3
      invariant ParsePathAttributes(input, handler) == ParseFrom(buf, attrs, handler)
      decreases |buf|
    {
      var flags, typeCode := buf[0], buf[1];
      var rest := buf[2..];
      var attrLen: nat;
      if Extended(flags) {
        if |rest| < 2 {
          return Err(UnexpectedEof(2, |rest|));
        }
        attrLen, rest := GetU16(rest), rest[2..];
      } else {
        attrLen, rest := rest[0], rest[1..];
      }
      if |rest| < attrLen {
        return Err(TruncatedAttribute(typeCode, attrLen, |rest|));
      }
      var a := RawAttribute(flags, typeCode, rest[..attrLen]);
      ghost var start := |buf| - |rest|;
      assert rest == buf[start..];
      assert rest[..attrLen] == buf[start..start + attrLen] && rest[attrLen..] == buf[start + attrLen..];
      var next := ApplyAttribute(attrs, a, handler);
      match next {
        case Ok(acc) => attrs := acc;
        case Err(e) => return Err(e);
        case Panic => return Panic;
      }
      buf := rest[attrLen..];
    }
    return Ok(attrs);
  }

  /** The value fits the length field that the flags ask for. */
  predicate Framable(a: RawAttribute) {
    |a.value| < if Extended(a.flags) then 0x1_0000 else 256
  }

  function EncodeAttribute(a: RawAttribute): (b: seq<Byte>)
    requires Framable(a)
    ensures |b| >= 3
  {
    [a.flags, a.typeCode]
    + (if Extended(a.flags) then PutU16(|a.value|) else [|a.value|])
    + a.value
  }

  /** An attribute on the wire: flags, type, a length of one octet or two, the value. */
  lemma AttributeOctets(a: RawAttribute)
    requires Framable(a)
    ensures EncodeAttribute(a)
            == (if a.flags / 16 % 2 == 1 then [a.flags, a.typeCode, |a.value| / 256, |a.value| % 256]
                else [a.flags, a.typeCode, |a.value|]) + a.value
  {
  }

  function EncodeAttributes(attrs: seq<RawAttribute>): seq<Byte>
    requires forall i :: 0 <= i < |attrs| ==> Framable(attrs[i])
  {
    if attrs == [] then [] else EncodeAttribute(attrs[0]) + EncodeAttributes(attrs[1..])
  }

  /** What a list of attributes does, read off the list itself. */
  function ApplyAll(acc: Attributes, attrs: seq<RawAttribute>, handler: Handler): Outcome<Attributes, Error>
    decreases |attrs|
  {
    if attrs == [] then Ok(acc)
    else
      match ApplyAttribute(acc, attrs[0], handler)
      case Ok(next) => ApplyAll(next, attrs[1..], handler)
      case Err(e) => Err(e)
      case Panic => Panic
  }

  lemma FrameEncoded(a: RawAttribute, rest: seq<Byte>)
    requires Framable(a)
    ensures FrameAttribute(EncodeAttribute(a) + rest) == Ok((a, |EncodeAttribute(a)|))
    ensures (EncodeAttribute(a) + rest)[|EncodeAttribute(a)|..] == rest
  {
  }

  /** Framing is exact for attributes of every type: the loop sees the list that was encoded. */
  lemma {:induction false} AttributesFramed(attrs: seq<RawAttribute>, acc: Attributes, handler: Handler)
    requires forall i :: 0 <= i < |attrs| ==> Framable(attrs[i])
    ensures ParseFrom(EncodeAttributes(attrs), acc, handler) == ApplyAll(acc, attrs, handler)
  {
    hide FrameAttribute, EncodeAttribute, ApplyAttribute;
    if attrs != [] {
      var rest := EncodeAttributes(attrs[1..]);
      FrameEncoded(attrs[0], rest);
      var first := ApplyAttribute(acc, attrs[0], handler);
      if first.Ok? {
        AttributesFramed(attrs[1..], first.value, handler);
      }
    }
  }

  // ---------------------------------------------------------------------------
  // What a list of attributes means
  // ---------------------------------------------------------------------------

  /** The extended length is the bit of value 16. */
  lemma ExtendedBit(high: nat, low: nat)
    requires high < 16 && low < 16
    ensures Extended(16 * high + low) <==> high % 2 == 1
  {
    assert (16 * high + low) / 16 == high;
  }

  /** Which attributes are kept raw: those of other types, and those of a fixed-size type with another size. */
  lemma KeptRaw(t: Byte, n: nat)
    ensures t !in {1, 2, 3, 4, 5, 6, 7, 8, 9, 10, 14, 15, 16, 17, 18, 23, 29, 30, 32, 35, 40} ==> !Interpreted(t, n)
    ensures t in {2, 6, 8, 10, 16, 17, 23, 29, 30, 32, 40} ==> Interpreted(t, n)
    ensures t in {3, 4, 5, 9, 35} ==> (Interpreted(t, n) <==> n == 4)
    ensures t == 7 ==> (Interpreted(t, n) <==> n == 6 || n == 8)
    ensures t == 18 ==> (Interpreted(t, n) <==> n == 8)
    ensures t == 1 ==> (Interpreted(t, n) <==> n > 0)
    ensures t == 14 ==> (Interpreted(t, n) <==> n >= 4)
    ensures t == 15 ==> (Interpreted(t, n) <==> n >= 3)
  {
  }

  predicate AllFramable(attrs: seq<RawAttribute>) {
    forall i :: 0 <= i < |attrs| ==> Framable(attrs[i])
  }

  /** The last attribute of an interpreted type: it wins. */
  function LastOf(attrs: seq<RawAttribute>, t: Byte): Option<RawAttribute> {
    if attrs == [] then None
    else if LastOf(attrs[1..], t).Some? then LastOf(attrs[1..], t)
    else if attrs[0].typeCode == t && Interpreted(t, |attrs[0].value|) then Some(attrs[0]) else None
  }

  /** The attributes that are kept raw, in order. */
  function Raws(attrs: seq<RawAttribute>): seq<RawAttribute> {
    if attrs == [] then []
    else if Interpreted(attrs[0].typeCode, |attrs[0].value|) then Raws(attrs[1..])
    else [attrs[0]] + Raws(attrs[1..])
  }

  /** The decoder of the attribute's type accepts its value. */
  predicate Acceptable(a: RawAttribute, handler: Handler) {
    if a.typeCode == 2 then AsPath.Parse(a.value, false).Ok?
    else if a.typeCode == 17 then AsPath.Parse(a.value, true).Ok?
    else a.typeCode == 4 || a.typeCode == 5 || !Interpreted(a.typeCode, |a.value|) || handler(a)
  }

  predicate AllAcceptable(attrs: seq<RawAttribute>, handler: Handler) {
    forall i :: 0 <= i < |attrs| ==> Acceptable(attrs[i], handler)
  }

  /** The interpreted attributes this model does not look into, in order. */
  function Others(attrs: seq<RawAttribute>): seq<RawAttribute> {
    if attrs == [] then []
    else if Interpreted(attrs[0].typeCode, |attrs[0].value|) && attrs[0].typeCode !in {2, 4, 5, 17}
    then [attrs[0]] + Others(attrs[1..])
    else Others(attrs[1..])
  }

  /** The AS path of an attribute, if there is one. */
  ghost predicate SaysPath(a: Option<RawAttribute>, fourByte: bool, before: Option<AsPath.Path>, after: Option<AsPath.Path>) {
    match a
    case None => after == before
    case Some(a) => after.Some? && AsPath.Parse(a.value, fourByte) == Ok(after.value)
  }

  /** The number in the four octets of an attribute, if there is one. */
  ghost predicate SaysNumber(a: Option<RawAttribute>, before: Option<U32>, after: Option<U32>) {
    match a
    case None => after == before
    case Some(a) => |a.value| == 4 && after == Some(Number(a.value))
  }

  /** `r` is `acc` with what the attributes say: AS_PATH (type 2), AS4_PATH (17), MULTI_EXIT_DISC (4) and
      LOCAL_PREF (5) from the last attribute of the type, raw attributes behind those there. */
  ghost predicate Says(acc: Attributes, attrs: seq<RawAttribute>, r: Attributes) {
    && SaysPath(LastOf(attrs, 2), false, acc.asPath, r.asPath)
    && SaysPath(LastOf(attrs, 17), true, acc.as4Path, r.as4Path)
    && SaysNumber(LastOf(attrs, 4), acc.med, r.med)
    && SaysNumber(LastOf(attrs, 5), acc.localPref, r.localPref)
    && r.unknown == acc.unknown + Raws(attrs)
    && r.others == acc.others + Others(attrs)
  }

  lemma OneSays(acc: Attributes, a: RawAttribute, handler: Handler)
    ensures ApplyAttribute(acc, a, handler).Ok? <==> Acceptable(a, handler)
    ensures ApplyAttribute(acc, a, handler).Ok? ==> Says(acc, [a], ApplyAttribute(acc, a, handler).value)
  {
    hide Number, AsPath.Parse, GetU32;
    if |a.value| == 4 {
      ReadersAreBigEndian(a.value);
      assert a.value[..4] == a.value;
    }
    OfOne(a);
    OfOneType(a, 2);
    OfOneType(a, 17);
    OfOneType(a, 4);
    OfOneType(a, 5);
    hide LastOf, Raws, Others;
    assert acc.unknown + [] == acc.unknown && acc.others + [] == acc.others;
  }

  lemma OfOne(a: RawAttribute)
    ensures Raws([a]) == if Interpreted(a.typeCode, |a.value|) then [] else [a]
    ensures Others([a])
            == if Interpreted(a.typeCode, |a.value|) && a.typeCode !in {2, 4, 5, 17} then [a] else []
  {
    hide Interpreted;
    assert [a][1..] == [];
    assert Raws([a][1..]) == [] && Others([a][1..]) == [];
  }

  lemma OfOneType(a: RawAttribute, t: Byte)
    ensures LastOf([a], t) == if a.typeCode == t && Interpreted(t, |a.value|) then Some(a) else None
  {
    hide Interpreted;
    assert [a][1..] == [];
    assert LastOf([a][1..], t) == None;
  }

  lemma NothingSays(acc: Attributes)
    ensures Says(acc, [], acc)
  {
    assert acc.unknown + [] == acc.unknown && acc.others + [] == acc.others;
  }

  lemma LastOfCons(attrs: seq<RawAttribute>, t: Byte)
    requires attrs != []
    ensures LastOf(attrs, t) == if LastOf(attrs[1..], t).Some? then LastOf(attrs[1..], t) else LastOf([attrs[0]], t)
  {
    hide Interpreted;
    OfOneType(attrs[0], t);
  }

  lemma RestCons(attrs: seq<RawAttribute>)
    requires attrs != []
    ensures Raws(attrs) == Raws([attrs[0]]) + Raws(attrs[1..])
    ensures Others(attrs) == Others([attrs[0]]) + Others(attrs[1..])
  {
    hide Interpreted;
    OfOne(attrs[0]);
    assert [] + Raws(attrs[1..]) == Raws(attrs[1..]) && [] + Others(attrs[1..]) == Others(attrs[1..]);
  }

  lemma SaysCons(acc: Attributes, attrs: seq<RawAttribute>, mid: Attributes, r: Attributes)
    requires attrs != [] && Says(acc, [attrs[0]], mid) && Says(mid, attrs[1..], r)
    ensures Says(acc, attrs, r)
  {
    hide LastOf, Raws, Others, Number, AsPath.Parse;
    LastOfCons(attrs, 2);
    LastOfCons(attrs, 17);
    LastOfCons(attrs, 4);
    LastOfCons(attrs, 5);
    RestCons(attrs);
  }

  lemma {:induction false} ListSays(acc: Attributes, attrs: seq<RawAttribute>, handler: Handler)
    ensures ApplyAll(acc, attrs, handler).Ok? <==> AllAcceptable(attrs, handler)
    ensures ApplyAll(acc, attrs, handler).Ok? ==> Says(acc, attrs, ApplyAll(acc, attrs, handler).value)
    decreases |attrs|
  {
    hide ApplyAttribute, Acceptable, Says;
    if attrs == [] {
      NothingSays(acc);
    } else {
      OneSays(acc, attrs[0], handler);
      var first := ApplyAttribute(acc, attrs[0], handler);
      assert attrs == [attrs[0]] + attrs[1..];
      if first.Ok? {
        ListSays(first.value, attrs[1..], handler);
        if ApplyAll(acc, attrs, handler).Ok? {
          SaysCons(acc, attrs, first.value, ApplyAll(acc, attrs, handler).value);
        }
      }
    }
  }

  /** The attribute section of any list of attributes is accepted if and only if every decoder accepts its value,
      and then holds what the attributes say. */
  lemma AttributesMean(attrs: seq<RawAttribute>, handler: Handler)
    requires AllFramable(attrs)
    ensures var r := ParsePathAttributes(EncodeAttributes(attrs), handler);
            && (r.Ok? <==> AllAcceptable(attrs, handler))
            && (r.Ok? ==> Says(NO_ATTRIBUTES, attrs, r.value))
  {
    hide ApplyAll, ParseFrom, Says, AllAcceptable;
    AttributesFramed(attrs, NO_ATTRIBUTES, handler);
    ListSays(NO_ATTRIBUTES, attrs, handler);
  }

  ghost predicate AllRaw(attrs: seq<RawAttribute>) {
    forall i :: 0 <= i < |attrs| ==> Framable(attrs[i]) && !Interpreted(attrs[i].typeCode, |attrs[i].value|)
  }

  lemma {:induction false} RawAttributesKept(attrs: seq<RawAttribute>, acc: Attributes, handler: Handler)
    requires AllRaw(attrs)
    ensures ApplyAll(acc, attrs, handler) == Ok(acc.(unknown := acc.unknown + attrs))
  {
    if attrs == [] {
      assert acc.unknown + attrs == acc.unknown;
    } else {
      var next := acc.(unknown := acc.unknown + [attrs[0]]);
      RawAttributesKept(attrs[1..], next, handler);
      assert next.unknown + attrs[1..] == acc.unknown + attrs;
    }
  }

  lemma {:induction false} ApplyAllAppend(acc: Attributes, a: seq<RawAttribute>, b: seq<RawAttribute>, handler: Handler)
    ensures ApplyAll(acc, a + b, handler)
            == match ApplyAll(acc, a, handler)
               case Ok(mid) => ApplyAll(mid, b, handler)
               case Err(e) => Err(e)
               case Panic => Panic
    decreases |a|
  {
    hide ApplyAttribute;
    if a == [] {
      assert a + b == b;
    } else {
      assert (a + b)[1..] == a[1..] + b;
      var first := ApplyAttribute(acc, a[0], handler);
      if first.Ok? {
        ApplyAllAppend(first.value, a[1..], b, handler);
      }
    }
  }

  lemma ApplyOne(acc: Attributes, a: RawAttribute, handler: Handler)
    ensures ApplyAll(acc, [a], handler) == ApplyAttribute(acc, a, handler)
  {
    hide ApplyAttribute;
  }

  /** Octets of an AS_PATH that its decoder reads back: two-byte ASNs, or four-byte ASNs that the width guess gets
      right. */
  ghost predicate PathValue(value: seq<Byte>, p: AsPath.Path) {
    || (AsPath.EncodablePath(p, AsPath.Two) && value == AsPath.Encode(p, AsPath.Two))
    || (AsPath.EncodablePath(p, AsPath.Four) && value == AsPath.Encode(p, AsPath.Four)
        && (AsPath.AsnCount(p) == 0 || !AsPath.ReadsAs(value, AsPath.Two)))
  }

  lemma PathValueRead(value: seq<Byte>, p: AsPath.Path)
    requires PathValue(value, p)
    ensures AsPath.Parse(value, false) == Ok(p)
  {
    if AsPath.EncodablePath(p, AsPath.Two) && value == AsPath.Encode(p, AsPath.Two) {
      AsPath.TwoByteDecodes(p);
    } else {
      AsPath.FourByteDecodesIff(p);
    }
  }

  lemma As4PathRead(q: AsPath.Path)
    requires AsPath.EncodablePath(q, AsPath.Four)
    ensures AsPath.Parse(AsPath.Encode(q, AsPath.Four), true) == Ok(q)
  {
    AsPath.ParseEncode(q, AsPath.Four, []);
    assert AsPath.Encode(q, AsPath.Four) + [] == AsPath.Encode(q, AsPath.Four);
  }

  /** AS paths round trip: an AS_PATH (type 2) and an AS4_PATH (type 17) among raw attributes parse to those paths,
      each in its own field, with the raw attributes in order. */
  lemma PathsRoundTrip(before: seq<RawAttribute>, path: RawAttribute, p: AsPath.Path, mid: seq<RawAttribute>,
                       path4: RawAttribute, q: AsPath.Path, after: seq<RawAttribute>, handler: Handler)
    requires AllRaw(before) && AllRaw(mid) && AllRaw(after) && Framable(path) && Framable(path4)
    requires path.typeCode == 2 && PathValue(path.value, p)
    requires path4.typeCode == 17 && AsPath.EncodablePath(q, AsPath.Four)
    requires path4.value == AsPath.Encode(q, AsPath.Four)
    ensures var attrs := before + ([path] + (mid + ([path4] + after)));
            && AllFramable(attrs)
            && ParsePathAttributes(EncodeAttributes(attrs), handler)
               == Ok(Attributes(Some(p), Some(q), None, None, [], before + mid + after))
  {
    hide ApplyAll, ParseFrom, PathValue, AsPath.Parse, AsPath.Encode, AsPath.EncodablePath;
    var attrs := before + ([path] + (mid + ([path4] + after)));
    AttributesFramed(attrs, NO_ATTRIBUTES, handler);
    var acc1 := NO_ATTRIBUTES.(unknown := before);
    var acc2 := acc1.(asPath := Some(p));
    var acc3 := acc2.(unknown := before + mid);
    var acc4 := acc3.(as4Path := Some(q));
    assert [] + before == before;
    RawAttributesKept(before, NO_ATTRIBUTES, handler);
    ApplyAllAppend(NO_ATTRIBUTES, before, [path] + (mid + ([path4] + after)), handler);
    PathValueRead(path.value, p);
    ApplyOne(acc1, path, handler);
    ApplyAllAppend(acc1, [path], mid + ([path4] + after), handler);
    RawAttributesKept(mid, acc2, handler);
    ApplyAllAppend(acc2, mid, [path4] + after, handler);
    As4PathRead(q);
    ApplyOne(acc3, path4, handler);
    ApplyAllAppend(acc3, [path4], after, handler);
    RawAttributesKept(after, acc4, handler);
  }

  // ---------------------------------------------------------------------------
  // UPDATE
  // ---------------------------------------------------------------------------

  datatype BgpUpdate = BgpUpdate(
    withdrawn: seq<Prefix>,
    withdrawnIds: seq<Option<U32>>,
    attributes: Attributes,
    announced: seq<Prefix>,
    announcedIds: seq<Option<U32>>)

  function Prefixes(items: seq<Item>): (r: seq<Prefix>)
    ensures |r| == |items|
  {
    seq(|items|, i requires 0 <= i < |items| => items[i].0)
  }

  function Ids(items: seq<Item>): (r: seq<Option<U32>>)
    ensures |r| == |items|
  {
    seq(|items|, i requires 0 <= i < |items| => items[i].1)
  }

  function Marker(): (m: seq<Byte>)
    ensures |m| == 16
  {
    seq(16, _ => 255)
  }

  /** A two-byte length and that many bytes. */
  function Section(b: seq<Byte>): (r: Outcome<nat, Error>)
    ensures r.Ok? ==> 2 + r.value <= |b|
    ensures !r.Panic?
  {
    if |b| < 2 then Err(UnexpectedEof(2, |b|))
    else if |b| - 2 < GetU16(b) then Err(UnexpectedEof(GetU16(b), |b| - 2))
    else Ok(GetU16(b))
  }

  /** Everything after the 19-byte header. */
  function ParseBody(b: seq<Byte>, addPath: bool, handler: Handler): Outcome<BgpUpdate, Error> {
    match Section(b)
    case Err(e) => Err(e)
    case Panic => Panic
    case Ok(n) =>
      match DecodeWithPathId(b[2..2 + n], Ipv4, addPath)
      case Err(e) => Err(e)
      case Panic => Panic
      case Ok(withdrawn) => ParseAfterWithdrawn(b[2 + n..], withdrawn, addPath, handler)
  }

  function ParseAfterWithdrawn(b: seq<Byte>, withdrawn: seq<Item>, addPath: bool, handler: Handler)
    : Outcome<BgpUpdate, Error>
  {
    match Section(b)
    case Err(e) => Err(e)
    case Panic => Panic
    case Ok(n) =>
      match ParsePathAttributes(b[2..2 + n], handler)
      case Err(e) => Err(e)
      case Panic => Panic
      case Ok(attributes) =>
        match DecodeWithPathId(b[2 + n..], Ipv4, addPath)
        case Err(e) => Err(e)
        case Panic => Panic
        case Ok(announced) =>
          Ok(BgpUpdate(Prefixes(withdrawn), Ids(withdrawn), attributes, Prefixes(announced), Ids(announced)))
  }

  /** The marker, length and type are read without a bounds check; the length is not used. */
  function ParseUpdate(b: seq<Byte>, addPath: bool, handler: Handler): Outcome<BgpUpdate, Error> {
    if |b| < 16 then Panic
    else if b[..16] != Marker() then Err(InvalidBgpMarker)
    else if |b| < 19 then Panic
    else if b[18] != 2 then Err(InvalidBgpMessageType(b[18]))
    else ParseBody(b[19..], addPath, handler)
  }

  /** `parse_bgp_update`, consuming its buffer. */
  method ParseBgpUpdate(input: seq<Byte>, addPath: bool, handler: Handler) returns (r: Outcome<BgpUpdate, Error>)
    ensures r == ParseUpdate(input, addPath, handler)
    ensures r.Ok? ==> |r.value.withdrawnIds| == |r.value.withdrawn| && |r.value.announcedIds| == |r.value.announced|
  {
    hide DecodeWithPathId, ParseFrom;
    if |input| < 16 {
      return Panic;
    }
    if input[..16] != Marker() {
      return Err(InvalidBgpMarker);
    }
    if |input| < 19 {
      return Panic;
    }
    if input[18] != 2 {
      return Err(InvalidBgpMessageType(input[18]));
    }
    var buf := input[19..];
    var withdrawnLen := Section(buf);
    if !withdrawnLen.Ok? {
      return Err(withdrawnLen.error);
    }
    var withdrawn := DecodeIds(buf[2..2 + withdrawnLen.value], Ipv4, addPath);
    match withdrawn {
      case Panic => return Panic;
      case Err(e) => return Err(e);
      case Ok(_) =>
    }
    buf := buf[2 + withdrawnLen.value..];
    var attrLen := Section(buf);
    if !attrLen.Ok? {
      return Err(attrLen.error);
    }
    var attributes := ParseAttributeLoop(buf[2..2 + attrLen.value], handler);
    match attributes {
      case Panic => return Panic;
      case Err(e) => return Err(e);
      case Ok(_) =>
    }
    var announced := DecodeIds(buf[2 + attrLen.value..], Ipv4, addPath);
    match announced {
      case Panic => return Panic;
      case Err(e) => return Err(e);
      case Ok(_) =>
    }
    return Ok(BgpUpdate(Prefixes(withdrawn.value), Ids(withdrawn.value), attributes.value,
                        Prefixes(announced.value), Ids(announced.value)));
  }

  lemma SectionRead(bytes: seq<Byte>, rest: seq<Byte>)
    requires |bytes| < 0x1_0000
    ensures var b := PutU16(|bytes|) + bytes + rest;
            Section(b) == Ok(|bytes|) && b[2..2 + |bytes|] == bytes && b[2 + |bytes|..] == rest
  {
  }

  /** An UPDATE, as its sender lays it out. */
  function Assemble(msgLen: U16, withdrawn: seq<Byte>, attributes: seq<Byte>, announced: seq<Byte>): seq<Byte>
    requires |withdrawn| < 0x1_0000 && |attributes| < 0x1_0000
  {
    Marker() + PutU16(msgLen) + [2]
    + (PutU16(|withdrawn|) + withdrawn + (PutU16(|attributes|) + attributes + announced))
  }

  /** The octets in their order: marker, length, type; withdrawn routes with their length in front, attributes with
      theirs, announced routes. */
  lemma AssembledOctets(msgLen: U16, withdrawn: seq<Byte>, attributes: seq<Byte>, announced: seq<Byte>)
    requires |withdrawn| < 0x1_0000 && |attributes| < 0x1_0000
    ensures Assemble(msgLen, withdrawn, attributes, announced)
            == seq(16, _ => 255) + [msgLen / 256, msgLen % 256, 2]
               + ([|withdrawn| / 256, |withdrawn| % 256] + withdrawn
                  + ([|attributes| / 256, |attributes| % 256] + attributes + announced))
  {
  }

  /** An assembled UPDATE parses back to its withdrawn routes, what its attributes parse to, and its announced
      routes, for both Add-Path settings and whatever the message length field says. */
  lemma UpdateAssembled(msgLen: U16, withdrawn: seq<Item>, attrs: seq<RawAttribute>, announced: seq<Item>,
                        addPath: bool, handler: Handler)
    requires Encodable(withdrawn, Ipv4, addPath) && Encodable(announced, Ipv4, addPath) && AllFramable(attrs)
    requires |EncodeItems(withdrawn)| < 0x1_0000 && |EncodeAttributes(attrs)| < 0x1_0000
    ensures ParseUpdate(
              Assemble(msgLen, EncodeItems(withdrawn), EncodeAttributes(attrs), EncodeItems(announced)),
              addPath, handler)
            == match ParsePathAttributes(EncodeAttributes(attrs), handler)
               case Ok(a) => Ok(BgpUpdate(Prefixes(TruncatedItems(withdrawn)), Ids(withdrawn), a,
                                          Prefixes(TruncatedItems(announced)), Ids(announced)))
               case Err(e) => Err(e)
               case Panic => Panic
  {
    hide DecodeWithPathId, ParseFrom, EncodeItems, EncodeAttributes, TruncatedItems;
    var w, a, n := EncodeItems(withdrawn), EncodeAttributes(attrs), EncodeItems(announced);
    var tail := PutU16(|a|) + a + n;
    HeaderRead(msgLen, w, a, n, addPath, handler);
    SectionRead(w, tail);
    SectionRead(a, n);
    ItemsRoundTrip(withdrawn, Ipv4, addPath);
    ItemsRoundTrip(announced, Ipv4, addPath);
    TruncationKeepsIds(withdrawn);
    TruncationKeepsIds(announced);
  }

  /** With raw attributes those come back as they were. */
  lemma UpdateRoundTrip(msgLen: U16, withdrawn: seq<Item>, attrs: seq<RawAttribute>, announced: seq<Item>,
                        addPath: bool, handler: Handler)
    requires Encodable(withdrawn, Ipv4, addPath) && Encodable(announced, Ipv4, addPath) && AllRaw(attrs)
    requires |EncodeItems(withdrawn)| < 0x1_0000 && |EncodeAttributes(attrs)| < 0x1_0000
    ensures ParseUpdate(
              Assemble(msgLen, EncodeItems(withdrawn), EncodeAttributes(attrs), EncodeItems(announced)),
              addPath, handler)
            == Ok(BgpUpdate(
                    Prefixes(TruncatedItems(withdrawn)), Ids(withdrawn),
                    NO_ATTRIBUTES.(unknown := attrs),
                    Prefixes(TruncatedItems(announced)), Ids(announced)))
  {
    hide ParseUpdate, ParseFrom, Assemble, EncodeItems, EncodeAttributes, TruncatedItems, Encodable;
    UpdateAssembled(msgLen, withdrawn, attrs, announced, addPath, handler);
    AttributesFramed(attrs, NO_ATTRIBUTES, handler);
    RawAttributesKept(attrs, NO_ATTRIBUTES, handler);
    assert [] + attrs == attrs;
  }

  /** With AS paths among them, those come back too. */
  lemma UpdatePathsRoundTrip(msgLen: U16, withdrawn: seq<Item>, before: seq<RawAttribute>, path: RawAttribute,
                             p: AsPath.Path, mid: seq<RawAttribute>, path4: RawAttribute, q: AsPath.Path,
                             after: seq<RawAttribute>, announced: seq<Item>, addPath: bool, handler: Handler)
    requires Encodable(withdrawn, Ipv4, addPath) && Encodable(announced, Ipv4, addPath)
    requires AllRaw(before) && AllRaw(mid) && AllRaw(after) && Framable(path) && Framable(path4)
    requires path.typeCode == 2 && PathValue(path.value, p)
    requires path4.typeCode == 17 && AsPath.EncodablePath(q, AsPath.Four)
    requires path4.value == AsPath.Encode(q, AsPath.Four)
    requires AllFramable(before + ([path] + (mid + ([path4] + after))))
    requires |EncodeItems(withdrawn)| < 0x1_0000
    requires |EncodeAttributes(before + ([path] + (mid + ([path4] + after))))| < 0x1_0000
    ensures ParseUpdate(
              Assemble(msgLen, EncodeItems(withdrawn),
                       EncodeAttributes(before + ([path] + (mid + ([path4] + after)))), EncodeItems(announced)),
              addPath, handler)
            == Ok(BgpUpdate(
                    Prefixes(TruncatedItems(withdrawn)), Ids(withdrawn),
                    Attributes(Some(p), Some(q), None, None, [], before + mid + after),
                    Prefixes(TruncatedItems(announced)), Ids(announced)))
  {
    hide ParseUpdate, ParseFrom, Assemble, EncodeItems, EncodeAttributes, TruncatedItems, Encodable;
    hide PathValue, AsPath.Encode, AsPath.EncodablePath;
    PathsRoundTrip(before, path, p, mid, path4, q, after, handler);
    UpdateAssembled(msgLen, withdrawn, before + ([path] + (mid + ([path4] + after))), announced, addPath, handler);
  }

  /** The body is parsed if and only if sixteen octets of all ones are in front and type 2 is behind the length. */
  lemma HeaderChecked(b: seq<Byte>, addPath: bool, handler: Handler)
    requires |b| >= 19
    ensures ParseUpdate(b, addPath, handler)
            == if exists i :: 0 <= i < 16 && b[i] != 255 then Err(InvalidBgpMarker)
               else if b[18] != 2 then Err(InvalidBgpMessageType(b[18]))
               else ParseBody(b[19..], addPath, handler)
  {
    hide ParseBody;
    if forall i :: 0 <= i < 16 ==> b[i] == 255 {
      assert b[..16] == Marker();
    } else {
      var i :| 0 <= i < 16 && b[i] != 255;
      assert b[..16][i] != Marker()[i];
    }
  }

  lemma HeaderRead(msgLen: U16, w: seq<Byte>, a: seq<Byte>, n: seq<Byte>, addPath: bool, handler: Handler)
    requires |w| < 0x1_0000 && |a| < 0x1_0000
    ensures ParseUpdate(Assemble(msgLen, w, a, n), addPath, handler)
            == ParseBody(PutU16(|w|) + w + (PutU16(|a|) + a + n), addPath, handler)
  {
  }

  lemma {:induction false} TruncationKeepsIds(items: seq<Item>)
    ensures Ids(TruncatedItems(items)) == Ids(items)
  {
    if items != [] {
      TruncationKeepsIds(items[1..]);
      assert Ids(items) == [items[0].1] + Ids(items[1..]);
      assert Ids(TruncatedItems(items)) == [items[0].1] + Ids(TruncatedItems(items[1..]));
    }
  }
}

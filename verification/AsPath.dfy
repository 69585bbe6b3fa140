/**
 AS_PATH decoding with a guessed ASN width (`parse_as_path` in
 `crates/rbmp-core/src/bgp/attributes.rs`; segment layout of section 4.3 of RFC 4271,
 four-byte ASNs of section 4 of RFC 6793).
 */
module AsPath {
  import opened Common
  import opened BigEndian
  import opened BgpErrors

  datatype Segment =
    | AsSet(asns: seq<U32>)
    | AsSequence(asns: seq<U32>)
    | ConfedSequence(asns: seq<U32>)
    | ConfedSet(asns: seq<U32>)

  type Path = seq<Segment>

  /** Width of one ASN on the wire. */
  datatype Width = Two | Four {
    function Octets(): nat { if this == Four then 4 else 2 }

    /** Octets taken by `n` ASNs. */
    function Span(n: nat): nat { if this == Four then 4 * n else 2 * n }
  }

  // ---------------------------------------------------------------------------
  // Wire format
  // ---------------------------------------------------------------------------

  function TypeCode(s: Segment): Byte {
    match s
    case AsSet(_) => 1
    case AsSequence(_) => 2
    case ConfedSequence(_) => 3
    case ConfedSet(_) => 4
  }

  predicate KnownType(t: Byte) {
    1 <= t <= 4
  }

  function MakeSegment(t: Byte, asns: seq<U32>): (s: Segment)
    requires KnownType(t)
    ensures TypeCode(s) == t && s.asns == asns
  {
    if t == 1 then AsSet(asns) else if t == 2 then AsSequence(asns)
    else if t == 3 then ConfedSequence(asns) else ConfedSet(asns)
  }

  function PutAsns(asns: seq<U32>, w: Width): (s: seq<Byte>)
    requires w == Two ==> forall i :: 0 <= i < |asns| ==> asns[i] < 0x1_0000
    ensures |s| == w.Span(|asns|)
  {
    if asns == [] then []
    else PutAsn(asns[0], w) + PutAsns(asns[1..], w)
  }

  predicate Encodable(s: Segment, w: Width) {
    |s.asns| < 256 && (w == Two ==> forall i :: 0 <= i < |s.asns| ==> s.asns[i] < 0x1_0000)
  }

  predicate EncodablePath(p: Path, w: Width) {
    forall i :: 0 <= i < |p| ==> Encodable(p[i], w)
  }

  function EncodeSegment(s: Segment, w: Width): (b: seq<Byte>)
    requires Encodable(s, w)
    ensures |b| == 2 + w.Span(|s.asns|)
  {
    [TypeCode(s), |s.asns|] + PutAsns(s.asns, w)
  }

  function Encode(p: Path, w: Width): seq<Byte>
    requires EncodablePath(p, w)
  {
    if p == [] then [] else EncodeSegment(p[0], w) + Encode(p[1..], w)
  }

  // ---------------------------------------------------------------------------
  // The parser
  // ---------------------------------------------------------------------------

  function ReadAsn(b: seq<Byte>, w: Width): U32
    requires |b| >= w.Octets()
  {
    if w == Four then GetU32(b) else GetU16(b)
  }

  function PutAsn(asn: U32, w: Width): (s: seq<Byte>)
    requires w == Two ==> asn < 0x1_0000
    ensures |s| == w.Octets()
  {
    if w == Four then PutU32(asn) else PutU16(asn)
  }

  function GetAsns(b: seq<Byte>, w: Width): (asns: seq<U32>)
    ensures w.Span(|asns|) <= |b| < w.Span(|asns| + 1)
  {
    if |b| < w.Octets() then []
    else [ReadAsn(b, w)] + GetAsns(b[w.Octets()..], w)
  }

  /** `parse_as_path_with_asn_size`: the length check comes before the type check, and up to
      one trailing byte is ignored. */
  function ParseSized(b: seq<Byte>, w: Width): Outcome<Path, Error> {
    if |b| < 2 then Ok([])
    else
      var needed := w.Span(b[1]);
      var body := b[2..];
      if |body| < needed then Err(UnexpectedEof(needed, |body|))
      else if !KnownType(b[0]) then Err(UnknownSegmentType(b[0]))
      else match ParseSized(body[needed..], w)
        case Ok(rest) => Ok([MakeSegment(b[0], GetAsns(body[..needed], w))] + rest)
        case Err(e) => Err(e)
        case Panic => Panic
  }

  /** `parse_as_path`: two-byte ASNs first, four-byte ASNs when that fails, and the first
      error when both fail. */
  function Parse(b: seq<Byte>, fourByte: bool): Outcome<Path, Error> {
    if fourByte then ParseSized(b, Four)
    else
      var first := ParseSized(b, Two);
      if first.Ok? then first
      else
        var second := ParseSized(b, Four);
        if second.Ok? then second else first
  }

  function Prepend(done: Path, r: Outcome<Path, Error>): Outcome<Path, Error> {
    if r.Ok? then Ok(done + r.value) else r
  }

  lemma PrependNothing(r: Outcome<Path, Error>)
    ensures Prepend([], r) == r
  {
    assert r.Ok? ==> [] + r.value == r.value;
  }

  lemma PrependTwice(a: Path, b: Path, r: Outcome<Path, Error>)
    ensures Prepend(a, Prepend(b, r)) == Prepend(a + b, r)
  {
    assert r.Ok? ==> a + (b + r.value) == (a + b) + r.value;
  }

  /** One turn of the parser. */
  lemma ParseTurn(b: seq<Byte>, w: Width)
    ensures if |b| < 2 then ParseSized(b, w) == Ok([])
            else
              var needed, body := w.Span(b[1]), b[2..];
              if |body| < needed then ParseSized(b, w) == Err(UnexpectedEof(needed, |body|))
              else if !KnownType(b[0]) then ParseSized(b, w) == Err(UnknownSegmentType(b[0]))
              else ParseSized(b, w)
                   == Prepend([MakeSegment(b[0], GetAsns(body[..needed], w))], ParseSized(body[needed..], w))
  {
    hide GetAsns, MakeSegment;
  }

  /** The parsing loop of the source, buffer slices and all. */
  method ParseLoop(input: seq<Byte>, w: Width) returns (r: Outcome<Path, Error>)
    ensures r == ParseSized(input, w)
  {
    hide ParseSized, ReadAsn, GetAsns, MakeSegment;
    var buf := input;
    var segments: Path := [];
    PrependNothing(ParseSized(buf, w));
    while |buf| >= 2
      invariant ParseSized(input, w) == Prepend(segments, ParseSized(buf, w))
      decreases |buf|
    {
      ParseTurn(buf, w);
      var segType, segLen: nat := buf[0], buf[1];
      var body := buf[2..];
      var needed := w.Span(segLen);
      if |body| < needed {
        return Err(UnexpectedEof(needed, |body|));
      }
      var asns := ReadAsns(body[..needed], segLen, w);
      if !KnownType(segType) {
        return Err(UnknownSegmentType(segType));
      }
      PrependTwice(segments, [MakeSegment(segType, asns)], ParseSized(body[needed..], w));
      segments := segments + [MakeSegment(segType, asns)];
      buf := body[needed..];
    }
    ParseTurn(buf, w);
    assert segments + [] == segments;
    return Ok(segments);
  }

  method ReadAsns(body: seq<Byte>, count: nat, w: Width) returns (asns: seq<U32>)
    requires |body| == w.Span(count)
    ensures asns == GetAsns(body, w)
  {
    hide GetAsns, ReadAsn;
    asns := [];
    assert body[w.Span(0)..] == body;
    for i := 0 to count
      invariant GetAsns(body, w) == asns + GetAsns(body[w.Span(i)..], w)
    {
      ghost var rest := body[w.Span(i)..];
      assert |rest| >= w.Octets() && rest[w.Octets()..] == body[w.Span(i + 1)..];
      GetAsnsStep(rest, w);
      var asn := ReadAsn(body[w.Span(i)..], w);
      assert asns + ([asn] + GetAsns(body[w.Span(i + 1)..], w)) == (asns + [asn]) + GetAsns(body[w.Span(i + 1)..], w);
      asns := asns + [asn];
    }
    GetAsnsStep(body[w.Span(count)..], w);
  }

  lemma GetAsnsStep(b: seq<Byte>, w: Width)
    ensures GetAsns(b, w) == if |b| < w.Octets() then []
                             else [ReadAsn(b, w)] + GetAsns(b[w.Octets()..], w)
  {
  }

  // ---------------------------------------------------------------------------
  // The parser accepts exactly the encodings
  // ---------------------------------------------------------------------------

  lemma ReadBackAsn(asn: U32, w: Width, rest: seq<Byte>)
    requires w == Two ==> asn < 0x1_0000
    ensures ReadAsn(PutAsn(asn, w) + rest, w) == asn
    ensures (PutAsn(asn, w) + rest)[w.Octets()..] == rest
  {
  }

  lemma WriteBackAsn(b: seq<Byte>, w: Width)
    requires |b| >= w.Octets()
    ensures w == Two ==> ReadAsn(b, w) < 0x1_0000
    ensures PutAsn(ReadAsn(b, w), w) == b[..w.Octets()]
  {
    if w == Four {
      WriteBackU32(b);
    } else {
      WriteBackU16(b);
    }
  }

  lemma {:induction false} GetPutAsns(asns: seq<U32>, w: Width)
    requires w == Two ==> forall i :: 0 <= i < |asns| ==> asns[i] < 0x1_0000
    ensures GetAsns(PutAsns(asns, w), w) == asns
  {
    if asns != [] {
      var rest := PutAsns(asns[1..], w);
      ReadBackAsn(asns[0], w, rest);
      GetPutAsns(asns[1..], w);
    }
  }

  lemma {:induction false} PutGetAsns(b: seq<Byte>, count: nat, w: Width)
    requires |b| == w.Span(count)
    ensures w == Two ==> forall i :: 0 <= i < |GetAsns(b, w)| ==> GetAsns(b, w)[i] < 0x1_0000
    ensures PutAsns(GetAsns(b, w), w) == b
  {
    if |b| >= w.Octets() {
      PutGetAsns(b[w.Octets()..], count - 1, w);
      WriteBackAsn(b, w);
      assert b == b[..w.Octets()] + b[w.Octets()..];
    }
  }

  /** One encoded segment in front of any bytes is taken off whole. */
  lemma ParseSegment(s: Segment, w: Width, tail: seq<Byte>)
    requires Encodable(s, w)
    ensures ParseSized(EncodeSegment(s, w) + tail, w) == Prepend([s], ParseSized(tail, w))
  {
    hide ParseSized, Prepend, GetAsns, PutAsns;
    var b := EncodeSegment(s, w) + tail;
    var needed := w.Span(|s.asns|);
    assert b[2..] == PutAsns(s.asns, w) + tail;
    assert b[2..][..needed] == PutAsns(s.asns, w) && b[2..][needed..] == tail;
    GetPutAsns(s.asns, w);
    ParseTurn(b, w);
  }

  /** Decoding inverts encoding at the right width, up to one stray byte. */
  lemma {:induction false} ParseEncode(p: Path, w: Width, tail: seq<Byte>)
    requires EncodablePath(p, w) && |tail| < 2
    ensures ParseSized(Encode(p, w) + tail, w) == Ok(p)
  {
    hide PutAsn, ReadAsn, PutAsns, GetAsns, ParseSized, EncodeSegment;
    if p == [] {
      assert Encode(p, w) + tail == tail;
      ParseTurn(tail, w);
    } else {
      var rest := Encode(p[1..], w) + tail;
      assert Encode(p, w) + tail == EncodeSegment(p[0], w) + rest;
      ParseSegment(p[0], w, rest);
      ParseEncode(p[1..], w, tail);
      assert p == [p[0]] + p[1..];
    }
  }

  /** Whatever is accepted is the encoding of the result, up to one stray byte. */
  lemma {:induction false} EncodeParse(b: seq<Byte>, w: Width) returns (tail: seq<Byte>)
    requires ParseSized(b, w).Ok?
    ensures EncodablePath(ParseSized(b, w).value, w) && |tail| < 2
    ensures b == Encode(ParseSized(b, w).value, w) + tail
    decreases |b|
  {
    hide ParseSized, Encode, EncodeSegment, Encodable;
    if |b| < 2 {
      tail := b;
      ParseStray(b, w);
    } else {
      var s, rest := ParseUnfold(b, w);
      tail := EncodeParse(rest, w);
      EncodeCons(s, ParseSized(rest, w).value, w);
      assert b == EncodeSegment(s, w) + (Encode(ParseSized(rest, w).value, w) + tail);
    }
  }

  lemma ParseStray(b: seq<Byte>, w: Width)
    requires |b| < 2
    ensures ParseSized(b, w) == Ok([]) && Encode([], w) == [] && [] + b == b
  {
  }

  lemma ParseUnfold(b: seq<Byte>, w: Width) returns (s: Segment, rest: seq<Byte>)
    requires ParseSized(b, w).Ok? && |b| >= 2
    ensures Encodable(s, w) && b == EncodeSegment(s, w) + rest && |rest| < |b|
    ensures ParseSized(rest, w).Ok? && ParseSized(b, w).value == [s] + ParseSized(rest, w).value
  {
    var needed := w.Span(b[1]);
    s := MakeSegment(b[0], GetAsns(b[2..][..needed], w));
    rest := b[2..][needed..];
    SegmentWrittenBack(b, w, s);
    assert rest == b[2 + needed..];
  }

  lemma EncodeCons(s: Segment, p: Path, w: Width)
    requires Encodable(s, w) && EncodablePath(p, w)
    ensures EncodablePath([s] + p, w) && Encode([s] + p, w) == EncodeSegment(s, w) + Encode(p, w)
  {
  }

  lemma SegmentWrittenBack(b: seq<Byte>, w: Width, s: Segment)
    requires |b| >= 2 && |b| >= 2 + w.Span(b[1]) && KnownType(b[0])
    requires s == MakeSegment(b[0], GetAsns(b[2..][..w.Span(b[1])], w))
    ensures Encodable(s, w) && EncodeSegment(s, w) == b[..2 + w.Span(b[1])]
  {
    hide GetAsns, PutAsns, MakeSegment;
    var needed := w.Span(b[1]);
    PutGetAsns(b[2..][..needed], b[1], w);
    assert b[..2 + needed] == [b[0], b[1]] + b[2..][..needed];
  }

  /** The bytes are a path with ASNs of width `w`, up to one stray byte. */
  ghost predicate ReadsAs(b: seq<Byte>, w: Width) {
    exists p: Path, tail: seq<Byte> ::
      EncodablePath(p, w) && |tail| < 2 && b == Encode(p, w) + tail
  }

  lemma AcceptsExactlyEncodings(b: seq<Byte>, w: Width)
    ensures ParseSized(b, w).Ok? <==> ReadsAs(b, w)
  {
    if ParseSized(b, w).Ok? {
      var tail := EncodeParse(b, w);
      assert ReadsAs(b, w);
    }
    if ReadsAs(b, w) {
      var p: Path, tail: seq<Byte> :|
        EncodablePath(p, w) && |tail| < 2 && b == Encode(p, w) + tail;
      ParseEncode(p, w, tail);
    }
  }

  // ---------------------------------------------------------------------------
  // Segments as octets (section 4.3 of RFC 4271, section 3 of RFC 5065)
  // ---------------------------------------------------------------------------

  lemma {:induction false} AsnAt(b: seq<Byte>, w: Width, k: nat)
    requires var o := if w == Four then 4 else 2; o * k + o <= |b|
    ensures var o := if w == Four then 4 else 2;
            k < |GetAsns(b, w)| && GetAsns(b, w)[k] == Number(b[o * k..o * k + o])
  {
    hide Number;
    var o := if w == Four then 4 else 2;
    if k == 0 {
      ReadersAreBigEndian(b);
    } else {
      AsnAt(b[o..], w, k - 1);
      assert b[o..][o * (k - 1)..o * (k - 1) + o] == b[o * k..o * k + o];
    }
  }

  /** A segment on the wire: its type octet says which kind it is, its count octet how many ASNs follow, and each
      ASN is a big-endian number. A type outside 1 to 4 is an error. */
  lemma SegmentRead(t: Byte, octets: seq<Byte>, n: Byte, w: Width)
    requires |octets| == (if w == Four then 4 else 2) * n
    ensures var r := ParseSized([t, n] + octets, w);
            if t == 0 || t > 4 then r == Err(UnknownSegmentType(t))
            else
              && r.Ok? && |r.value| == 1 && var s := r.value[0];
              && |s.asns| == n
              && (t == 1 ==> s.AsSet?) && (t == 2 ==> s.AsSequence?)
              && (t == 3 ==> s.ConfedSequence?) && (t == 4 ==> s.ConfedSet?)
              && var o := if w == Four then 4 else 2;
                 forall k :: 0 <= k < n ==> s.asns[k] == Number(octets[o * k..o * k + o])
  {
    hide GetAsns, Number;
    var b := [t, n] + octets;
    var o := if w == Four then 4 else 2;
    ParseTurn(b, w);
    assert b[2..] == octets && octets[..w.Span(n)] == octets && octets[w.Span(n)..] == [];
    ParseTurn([], w);
    if 1 <= t <= 4 {
      forall k | 0 <= k < n
        ensures k < |GetAsns(octets, w)| && GetAsns(octets, w)[k] == Number(octets[o * k..o * k + o])
      {
        AsnAt(octets, w, k);
      }
    }
  }

  // ---------------------------------------------------------------------------
  // The guess
  // ---------------------------------------------------------------------------

  /** Every well-formed two-byte path decodes to itself. */
  lemma TwoByteDecodes(p: Path)
    requires EncodablePath(p, Two)
    ensures Parse(Encode(p, Two), false) == Ok(p)
  {
    ParseEncode(p, Two, []);
    assert Encode(p, Two) + [] == Encode(p, Two);
  }

  /** When both widths fail, the error of the two-byte attempt is reported; with the four-byte flag there is one
      attempt only. */
  lemma ErrorsReported(b: seq<Byte>)
    ensures Parse(b, false).Err? <==> ParseSized(b, Two).Err? && ParseSized(b, Four).Err?
    ensures Parse(b, false).Err? ==> Parse(b, false) == ParseSized(b, Two)
    ensures Parse(b, true) == ParseSized(b, Four)
  {
    ParseErrors(b, Two);
    ParseErrors(b, Four);
  }

  /** A path is refused for too few octets or an unknown segment type, and for nothing else. */
  lemma {:induction false} ParseErrors(b: seq<Byte>, w: Width)
    ensures !ParseSized(b, w).Panic?
    ensures ParseSized(b, w).Err? ==>
              ParseSized(b, w).error.UnexpectedEof? || ParseSized(b, w).error.UnknownSegmentType?
    decreases |b|
  {
    hide GetAsns;
    if |b| >= 2 && |b| - 2 >= w.Span(b[1]) {
      ParseErrors(b[2..][w.Span(b[1])..], w);
    }
  }

  function AsnCount(p: Path): nat {
    if p == [] then 0 else |p[0].asns| + AsnCount(p[1..])
  }

  lemma {:induction false} EncodedLength(p: Path, w: Width)
    requires EncodablePath(p, w)
    ensures |Encode(p, w)| == 2 * |p| + w.Span(AsnCount(p))
  {
    if p != [] {
      EncodedLength(p[1..], w);
    }
  }

  lemma {:induction false} WidthIrrelevantWithoutAsns(p: Path)
    requires EncodablePath(p, Four) && AsnCount(p) == 0
    ensures EncodablePath(p, Two) && Encode(p, Two) == Encode(p, Four)
  {
    if p != [] {
      assert AsnCount(p[1..]) == 0;
      WidthIrrelevantWithoutAsns(p[1..]);
      assert p == [p[0]] + p[1..];
    }
  }

  /** Exactly when a four-byte path survives the guess: it carries no ASN at all, or its bytes
      are not also a two-byte path. */
  lemma FourByteDecodesIff(p: Path)
    requires EncodablePath(p, Four)
    ensures Parse(Encode(p, Four), false) == Ok(p)
            <==> AsnCount(p) == 0 || !ReadsAs(Encode(p, Four), Two)
  {
    var b := Encode(p, Four);
    assert b + [] == b;
    ParseEncode(p, Four, []);
    AcceptsExactlyEncodings(b, Two);
    if AsnCount(p) == 0 {
      WidthIrrelevantWithoutAsns(p);
      TwoByteDecodes(p);
    } else if ReadsAs(b, Two) {
      var q := ParseSized(b, Two).value;
      var tail := EncodeParse(b, Two);
      EncodedLength(q, Two);
      EncodedLength(p, Four);
      assert |b| == 2 * |q| + 2 * AsnCount(q) + |tail|;
      assert q != p;
    }
  }

  /** The two-byte attempt fails as soon as the byte where it expects the second segment is not a
      segment type, so the fallback reads the path. */
  lemma FallbackDecodes(p: Path)
    requires EncodablePath(p, Four) && p != [] && |p[0].asns| >= 1
    ensures |Encode(p, Four)| > 2 + 2 * |p[0].asns|
    ensures !KnownType(Encode(p, Four)[2 + 2 * |p[0].asns|]) ==>
              Parse(Encode(p, Four), false) == Ok(p)
  {
    var b := Encode(p, Four);
    var n := |p[0].asns|;
    assert b[0] == TypeCode(p[0]) && b[1] == n;
    if !KnownType(b[2 + 2 * n]) {
      UnknownSecondType(b, n);
      assert b + [] == b;
      ParseEncode(p, Four, []);
    }
  }

  lemma UnknownSecondType(b: seq<Byte>, n: nat)
    requires |b| >= 4 + 2 * n && b[1] == n && !KnownType(b[2 + 2 * n])
    ensures ParseSized(b, Two).Err?
  {
  }

  lemma {:induction false} PutAsnsAt(asns: seq<U32>, k: nat)
    requires k < |asns|
    ensures PutAsns(asns, Four)[4 * k] == asns[k] / 0x100_0000
  {
    if k > 0 {
      PutAsnsAt(asns[1..], k - 1);
    }
  }

  /** So every four-byte path whose first segment has an even number of ASNs, the middle one
      under 2^24 (as all 16-bit ASNs are), is decoded correctly. */
  lemma EvenFirstSegmentDecodes(p: Path)
    requires EncodablePath(p, Four) && p != []
    requires |p[0].asns| >= 2 && |p[0].asns| % 2 == 0
    requires p[0].asns[|p[0].asns| / 2] < 0x100_0000
    ensures Parse(Encode(p, Four), false) == Ok(p)
  {
    hide Parse, PutAsns;
    var n := |p[0].asns|;
    PutAsnsAt(p[0].asns, n / 2);
    FallbackDecodes(p);
    assert Encode(p, Four)[2 + 2 * n] == EncodeSegment(p[0], Four)[2 + 2 * n];
    assert 4 * (n / 2) == 2 * n;
  }

  /** The misread one-hop paths: AS `a` is lost if and only if its last octet is 0 and the one before it looks
      like a segment type. */
  lemma OneHopDecodesIff(s: Segment)
    requires |s.asns| == 1
    ensures EncodablePath([s], Four)
    ensures Parse(Encode([s], Four), false) == Ok([s])
            <==> !(KnownType(s.asns[0] / 256 % 256) && s.asns[0] % 256 == 0)
  {
    hide Parse, ParseSized;
    var b := Encode([s], Four);
    OneHopBytes(s);
    assert AsnCount([s]) == 1;
    FourByteDecodesIff([s]);
    AcceptsExactlyEncodings(b, Two);
    ParseTurn(b, Two);
    ParseTwoBytes(b[2..][2..]);
  }

  lemma OneHopBytes(s: Segment)
    requires |s.asns| == 1
    ensures EncodablePath([s], Four)
    ensures var b := Encode([s], Four);
            |b| == 6 && b[0] == TypeCode(s) && b[1] == 1 && b[4] == s.asns[0] / 256 % 256 && b[5] == s.asns[0] % 256
  {
    assert [s][1..] == [] && s.asns[1..] == [];
    assert Encode([s], Four) == EncodeSegment(s, Four) + [];
  }

  lemma ParseTwoBytes(b: seq<Byte>)
    requires |b| == 2
    ensures ParseSized(b, Two).Ok? <==> KnownType(b[0]) && b[1] == 0
  {
  }

  /** An odd first segment can be misread: the one-hop path through AS 512 comes back as two
      segments, through AS 0. */
  lemma OneHopMisread()
    ensures EncodablePath([AsSequence([512])], Four)
    ensures Parse(Encode([AsSequence([512])], Four), false) == Ok([AsSequence([0]), AsSequence([])])
  {
    var p: Path := [AsSequence([512])];
    assert [512][1..] == [];
    assert PutAsns([512], Four) == [0, 0, 2, 0];
    assert p[1..] == [];
    var b := Encode(p, Four);
    assert b == [2, 1, 0, 0, 2, 0];
    var q: Path := [AsSequence([0]), AsSequence([])];
    assert [0][1..] == [];
    assert PutAsns([0], Two) == [0, 0];
    assert q[1..] == [AsSequence([])] && q[1..][1..] == [];
    assert Encode(q[1..], Two) == [2, 0];
    assert Encode(q, Two) == b;
    TwoByteDecodes(q);
  }

  /** `hop_count`: ASNs in SEQUENCE segments. */
  function HopCount(p: Path): nat {
    if p == [] then 0
    else (if p[0].AsSequence? then |p[0].asns| else 0) + HopCount(p[1..])
  }

  /** What it counts: one hop for each ASN of a SEQUENCE, none for sets and confederation segments, and the
      segments add up. */
  lemma {:induction false} HopsAdd(p: Path, q: Path)
    ensures HopCount(p + q) == HopCount(p) + HopCount(q)
  {
    if p == [] {
      assert p + q == q;
    } else {
      assert (p + q)[1..] == p[1..] + q;
      HopsAdd(p[1..], q);
    }
  }

  lemma HopsOfSegment(asns: seq<U32>)
    ensures HopCount([AsSequence(asns)]) == |asns|
    ensures HopCount([AsSet(asns)]) == HopCount([ConfedSequence(asns)]) == HopCount([ConfedSet(asns)]) == 0
    ensures HopCount([]) == 0
  {
  }
}

/**
 Length-prefixed NLRI: the decoders of `crates/rbmp-core/src/bgp/nlri.rs` against the writer of
 `crates/rbmp-mrt/src/writer.rs` (section 4.3 of RFC 4271; path ids of section 3 of RFC 7911).
 */
module Nlri {
  import opened Common
  import opened BigEndian
  import opened Powers
  import opened BgpErrors

  datatype Afi = Ipv4 | Ipv6 | OtherAfi(code: U16) {
    function Code(): U16 { if Ipv4? then 1 else if Ipv6? then 2 else code }
    /** Octets of an address: everything that is not IPv6 is read as IPv4. */
    function Octets(): nat { if Ipv6? then 16 else 4 }
  }

  datatype Prefix =
    | V4(addr: seq<Byte>, len: Byte)
    | V6(addr: seq<Byte>, len: Byte)
    | Labeled(inner: Prefix, labels: seq<U32>)
    | Vpn(rd: seq<Byte>, inner: Prefix, labels: seq<U32>)

  // ---------------------------------------------------------------------------
  // Addresses and host bits
  // ---------------------------------------------------------------------------

  /** Octets that carry a prefix of `len` bits. */
  function PrefixOctets(len: Byte): nat {
    (len + 7) / 8
  }

  /** How many of the bits of octet `i` belong to a prefix of `len` bits. */
  function NetworkBits(len: Byte, i: nat): (n: nat)
    ensures n <= 8
  {
    if len >= 8 * i + 8 then 8 else if len > 8 * i then len - 8 * i else 0
  }

  /** The network address: host bits cleared. */
  function Mask(addr: seq<Byte>, len: Byte): (r: seq<Byte>)
    ensures |r| == |addr|
  {
    seq(|addr|, i requires 0 <= i < |addr| => ClearLow(addr[i], 8 - NetworkBits(len, i)))
  }

  function Pad(chunk: seq<Byte>, n: nat): (r: seq<Byte>)
    requires |chunk| <= n
    ensures |r| == n
  {
    chunk + seq(n - |chunk|, _ => 0)
  }

  function Make(afi: Afi, addr: seq<Byte>, len: Byte): Prefix {
    if afi.Ipv6? then V6(addr, len) else V4(addr, len)
  }

  /** Label stack and route distinguisher taken off. */
  function Base(p: Prefix): (r: Prefix)
    ensures r.V4? || r.V6?
  {
    match p
    case Labeled(inner, _) => Base(inner)
    case Vpn(_, inner, _) => Base(inner)
    case _ => p
  }

  /** The address has all the octets its length asks for. */
  predicate Writable(p: Prefix) {
    PrefixOctets(Base(p).len) <= |Base(p).addr|
  }

  /** A prefix that the address types of the source can hold, of the family that `afi` reads. */
  ghost predicate OfFamily(p: Prefix, afi: Afi)
    ensures OfFamily(p, afi) ==> Writable(p)
  {
    var b := Base(p);
    b.V6? == afi.Ipv6? && |b.addr| == afi.Octets() && b.len <= 8 * afi.Octets()
  }

  ghost predicate AllOfFamily(ps: seq<Prefix>, afi: Afi)
    ensures AllOfFamily(ps, afi) ==> AllWritable(ps)
  {
    forall i :: 0 <= i < |ps| ==> OfFamily(ps[i], afi)
  }

  predicate AllWritable(ps: seq<Prefix>) {
    forall i :: 0 <= i < |ps| ==> Writable(ps[i])
  }

  /** What a decoder can return for `p`. */
  function Truncated(p: Prefix): Prefix {
    var b := Base(p);
    if b.V4? then V4(Mask(b.addr, b.len), b.len) else V6(Mask(b.addr, b.len), b.len)
  }

  // ---------------------------------------------------------------------------
  // The writer
  // ---------------------------------------------------------------------------

  function Encode(p: Prefix): (b: seq<Byte>)
    requires Writable(p)
  {
    [Base(p).len] + Base(p).addr[..PrefixOctets(Base(p).len)]
  }

  method WritePrefixNlri(buf: seq<Byte>, p: Prefix) returns (out: seq<Byte>)
    requires Writable(p)
    ensures out == buf + Encode(p)
  {
    match p {
      case V4(addr, len) =>
        out := buf + [len];
        out := out + addr[..PrefixOctets(len)];
      case V6(addr, len) =>
        out := buf + [len];
        out := out + addr[..PrefixOctets(len)];
      case Labeled(inner, _) => out := WritePrefixNlri(buf, inner);
      case Vpn(_, inner, _) => out := WritePrefixNlri(buf, inner);
    }
  }

  // ---------------------------------------------------------------------------
  // The decoders
  // ---------------------------------------------------------------------------

  type Item = (Prefix, Option<U32>)

  /** One prefix at the head of a non-empty buffer, and the bytes it takes. */
  function DecodePrefix(b: seq<Byte>, afi: Afi): (r: Outcome<(Prefix, nat), Error>)
    requires b != []
    ensures r.Ok? ==> 0 < r.value.1 <= |b|
    ensures !r.Panic?
  {
    var octets := PrefixOctets(b[0]);
    if |b| - 1 < octets then Err(UnexpectedEof(octets, |b| - 1))
    else if b[0] > 8 * afi.Octets() then Err(InvalidPrefixLen(b[0], afi.Code()))
    else Ok((Make(afi, Mask(Pad(b[1..1 + octets], afi.Octets()), b[0]), b[0]), 1 + octets))
  }

  function DecodeNlri(b: seq<Byte>, afi: Afi): Outcome<seq<Prefix>, Error> {
    if b == [] then Ok([])
    else
      match DecodePrefix(b, afi)
      case Ok((p, n)) => Cons(p, DecodeNlri(b[n..], afi))
      case Err(e) => Err(e)
  }

  /** With Add-Path the length byte after a path id is read without a check. */
  function DecodeWithPathId(b: seq<Byte>, afi: Afi, addPath: bool): Outcome<seq<Item>, Error> {
    if b == [] then Ok([])
    else if addPath && |b| < 4 then Err(UnexpectedEof(4, |b|))
    else
      var id: Option<U32> := if addPath then Some(GetU32(b)) else None;
      var rest := if addPath then b[4..] else b;
      if rest == [] then Panic
      else
        match DecodePrefix(rest, afi)
        case Ok((p, n)) => Cons((p, id), DecodeWithPathId(rest[n..], afi, addPath))
        case Err(e) => Err(e)
  }

  function Cons<T>(head: T, tail: Outcome<seq<T>, Error>): Outcome<seq<T>, Error> {
    if tail.Ok? then Ok([head] + tail.value) else tail
  }

  /** The result so far, in front of the result for the rest of the buffer. */
  function Resume<T>(done: seq<T>, r: Outcome<seq<T>, Error>): Outcome<seq<T>, Error> {
    if r.Ok? then Ok(done + r.value) else r
  }

  lemma ResumeStep<T>(done: seq<T>, head: T, tail: Outcome<seq<T>, Error>)
    ensures Resume(done, Cons(head, tail)) == Resume(done + [head], tail)
  {
    assert tail.Ok? ==> done + ([head] + tail.value) == (done + [head]) + tail.value;
  }

  lemma ResumeNothing<T>(r: Outcome<seq<T>, Error>)
    ensures Resume([], r) == r
  {
    assert r.Ok? ==> [] + r.value == r.value;
  }

  /** The decoding loop of the source: a cursor over the buffer and a growing list. */
  method Decode(input: seq<Byte>, afi: Afi) returns (r: Outcome<seq<Prefix>, Error>)
    ensures r == DecodeNlri(input, afi)
  {
    hide DecodePrefix;
    var buf := input;
    var prefixes: seq<Prefix> := [];
    ResumeNothing(DecodeNlri(buf, afi));
    while |buf| > 0
      invariant DecodeNlri(input, afi) == Resume(prefixes, DecodeNlri(buf, afi))
      decreases |buf|
    {
      var one := TakePrefix(buf, afi);
      match one {
        case Ok((p, n)) =>
          ResumeStep(prefixes, p, DecodeNlri(buf[n..], afi));
          prefixes := prefixes + [p];
          buf := buf[n..];
        case Err(e) => return Err(e);
      }
    }
    assert prefixes + [] == prefixes;
    return Ok(prefixes);
  }

  method DecodeIds(input: seq<Byte>, afi: Afi, addPath: bool) returns (r: Outcome<seq<Item>, Error>)
    ensures r == DecodeWithPathId(input, afi, addPath)
  {
    hide DecodePrefix;
    var buf := input;
    var prefixes: seq<Item> := [];
    ResumeNothing(DecodeWithPathId(buf, afi, addPath));
    while |buf| > 0
      invariant DecodeWithPathId(input, afi, addPath)
                == Resume(prefixes, DecodeWithPathId(buf, afi, addPath))
      decreases |buf|
    {
      var id: Option<U32> := None;
      var rest := buf;
      if addPath {
        if |buf| < 4 {
          return Err(UnexpectedEof(4, |buf|));
        }
        id, rest := Some(GetU32(buf)), buf[4..];
      }
      if rest == [] {
        return Panic;
      }
      var one := TakePrefix(rest, afi);
      match one {
        case Ok((p, n)) =>
          ResumeStep(prefixes, (p, id), DecodeWithPathId(rest[n..], afi, addPath));
          prefixes := prefixes + [(p, id)];
          buf := rest[n..];
        case Err(e) => return Err(e);
      }
    }
    assert prefixes + [] == prefixes;
    return Ok(prefixes);
  }

  method TakePrefix(buf: seq<Byte>, afi: Afi) returns (r: Outcome<(Prefix, nat), Error>)
    requires buf != []
    ensures r == DecodePrefix(buf, afi)
  {
    var prefixLen := buf[0];
    var rest := buf[1..];
    var octets := PrefixOctets(prefixLen);
    if |rest| < octets {
      return Err(UnexpectedEof(octets, |rest|));
    }
    if prefixLen > 8 * afi.Octets() {
      return Err(InvalidPrefixLen(prefixLen, afi.Code()));
    }
    assert rest[..octets] == buf[1..1 + octets];
    var addr := Pad(rest[..octets], afi.Octets());
    return Ok((Make(afi, Mask(addr, prefixLen), prefixLen), 1 + octets));
  }

  // ---------------------------------------------------------------------------
  // Round trips
  // ---------------------------------------------------------------------------

  function EncodeAll(ps: seq<Prefix>): seq<Byte>
    requires AllWritable(ps)
  {
    if ps == [] then [] else Encode(ps[0]) + EncodeAll(ps[1..])
  }

  function TruncatedAll(ps: seq<Prefix>): seq<Prefix> {
    if ps == [] then [] else [Truncated(ps[0])] + TruncatedAll(ps[1..])
  }

  /** Only the network bits reach the wire, so cutting and padding an address does not change its mask. */
  lemma MaskIgnoresPadding(addr: seq<Byte>, len: Byte)
    requires PrefixOctets(len) <= |addr|
    ensures Mask(Pad(addr[..PrefixOctets(len)], |addr|), len) == Mask(addr, len)
  {
  }

  lemma DecodeEncoded(p: Prefix, afi: Afi, rest: seq<Byte>)
    requires OfFamily(p, afi)
    ensures DecodePrefix(Encode(p) + rest, afi) == Ok((Truncated(p), |Encode(p)|))
    ensures (Encode(p) + rest)[|Encode(p)|..] == rest
  {
    var b := Base(p);
    var octets := PrefixOctets(b.len);
    var buf := Encode(p) + rest;
    assert buf[1..1 + octets] == b.addr[..octets];
    MaskIgnoresPadding(b.addr, b.len);
  }

  /** Decoding a written list gives the list back, without labels and host bits. */
  lemma {:induction false} RoundTrip(ps: seq<Prefix>, afi: Afi)
    requires AllOfFamily(ps, afi)
    ensures DecodeNlri(EncodeAll(ps), afi) == Ok(TruncatedAll(ps))
  {
    hide DecodePrefix, Truncated;
    if ps != [] {
      DecodeEncoded(ps[0], afi, EncodeAll(ps[1..]));
      RoundTrip(ps[1..], afi);
    }
  }

  /** The two octets agree in their `n` high bits. */
  predicate SameHighBits(x: Byte, y: Byte, n: nat)
    requires n <= 8
  {
    x / Pow2(8 - n) == y / Pow2(8 - n)
  }

  /** The first prefixes of the two buffers are the same but for host bits: same length, same network bits. */
  predicate SameHead(b: seq<Byte>, c: seq<Byte>)
    requires b != [] && c != []
  {
    var octets := PrefixOctets(b[0]);
    && b[0] == c[0] && 1 + octets <= |b| && 1 + octets <= |c|
    && forall i :: 0 <= i < octets ==> SameHighBits(b[1 + i], c[1 + i], NetworkBits(b[0], i))
  }

  /** The two buffers are the same NLRI but for host bits. */
  predicate SameNetworks(b: seq<Byte>, c: seq<Byte>)
    decreases |b|
  {
    if b == [] || c == [] then b == c
    else SameHead(b, c) && SameNetworks(b[1 + PrefixOctets(b[0])..], c[1 + PrefixOctets(b[0])..])
  }

  lemma ClearedKeepsHighBits(x: Byte, n: nat)
    requires n <= 8
    ensures SameHighBits(x, ClearLow(x, 8 - n), n)
    ensures ClearLow(ClearLow(x, 8 - n), 8 - n) == ClearLow(x, 8 - n)
  {
    OctetPowers(8 - n);
  }

  lemma MaskIdempotent(addr: seq<Byte>, len: Byte)
    ensures Mask(Mask(addr, len), len) == Mask(addr, len)
  {
    forall i | 0 <= i < |addr| ensures Mask(Mask(addr, len), len)[i] == Mask(addr, len)[i] {
      ClearedKeepsHighBits(addr[i], NetworkBits(len, i));
    }
  }

  lemma MaskKeepsHighBits(addr: seq<Byte>, len: Byte, i: nat)
    requires i < |addr|
    ensures SameHighBits(addr[i], Mask(addr, len)[i], NetworkBits(len, i))
  {
    ClearedKeepsHighBits(addr[i], NetworkBits(len, i));
  }

  /** A decoded prefix is a network address, and writing it again gives the bytes it came from, up to
      host bits. */
  lemma DecodedIsNetwork(b: seq<Byte>, afi: Afi)
    requires b != [] && DecodePrefix(b, afi).Ok?
    ensures var (p, n) := DecodePrefix(b, afi).value;
            && OfFamily(p, afi) && Truncated(p) == p && |Encode(p)| == n == 1 + PrefixOctets(b[0])
            && Encode(p)[0] == b[0]
            && forall i :: 0 <= i < PrefixOctets(b[0]) ==>
                 SameHighBits(b[1 + i], Encode(p)[1 + i], NetworkBits(b[0], i))
  {
    hide Mask, SameHighBits, NetworkBits, ClearLow;
    var (p, n) := DecodePrefix(b, afi).value;
    var octets := PrefixOctets(b[0]);
    var addr := Pad(b[1..1 + octets], afi.Octets());
    assert p == Make(afi, Mask(addr, b[0]), b[0]);
    MaskIdempotent(addr, b[0]);
    forall i | 0 <= i < octets ensures SameHighBits(b[1 + i], Encode(p)[1 + i], NetworkBits(b[0], i)) {
      assert addr[i] == b[1 + i];
      assert Encode(p)[1 + i] == Mask(addr, b[0])[i];
      MaskKeepsHighBits(addr, b[0], i);
    }
  }

  lemma EncodeCons(p: Prefix, ps: seq<Prefix>)
    requires Writable(p) && AllWritable(ps)
    ensures AllWritable([p] + ps) && EncodeAll([p] + ps) == Encode(p) + EncodeAll(ps)
  {
    assert ([p] + ps)[1..] == ps;
  }

  /** A decoded prefix, written again in front of any bytes, is the same but for host bits. */
  lemma DecodedSameHead(b: seq<Byte>, afi: Afi, c: seq<Byte>)
    requires b != [] && DecodePrefix(b, afi).Ok?
    ensures var (p, n) := DecodePrefix(b, afi).value;
            && OfFamily(p, afi) && Truncated(p) == p && n == 1 + PrefixOctets(b[0])
            && Encode(p) != [] && SameHead(b, Encode(p) + c) && (Encode(p) + c)[n..] == c
  {
    hide DecodePrefix, Truncated, Encode, OfFamily, SameHighBits, NetworkBits, PrefixOctets;
    DecodedIsNetwork(b, afi);
    var (p, n) := DecodePrefix(b, afi).value;
    var d := Encode(p) + c;
    forall i | 0 <= i < PrefixOctets(b[0]) ensures SameHighBits(b[1 + i], d[1 + i], NetworkBits(b[0], i)) {
      assert d[1 + i] == Encode(p)[1 + i];
    }
  }

  lemma {:induction false} AcceptedNetworks(b: seq<Byte>, afi: Afi)
    requires DecodeNlri(b, afi).Ok?
    ensures var ps := DecodeNlri(b, afi).value;
            AllOfFamily(ps, afi) && TruncatedAll(ps) == ps && SameNetworks(b, EncodeAll(ps))
    decreases |b|
  {
    hide DecodePrefix, Truncated, Encode, OfFamily, SameHead, EncodeAll, PrefixOctets;
    if b == [] {
      NoNetworks();
    } else {
      var (p, n) := DecodePrefix(b, afi).value;
      AcceptedNetworks(b[n..], afi);
      var ps := DecodeNlri(b[n..], afi).value;
      DecodedSameHead(b, afi, EncodeAll(ps));
      EncodeCons(p, ps);
      assert ([p] + ps)[1..] == ps;
    }
  }

  lemma NoNetworks()
    ensures EncodeAll([]) == [] && SameNetworks([], [])
  {
  }

  /** Re-encoding any accepted bytes changes nothing but host bits, and decodes to the same list. */
  lemma Reencode(b: seq<Byte>, afi: Afi)
    requires DecodeNlri(b, afi).Ok?
    ensures var ps := DecodeNlri(b, afi).value;
            && AllOfFamily(ps, afi) && TruncatedAll(ps) == ps
            && SameNetworks(b, EncodeAll(ps))
            && DecodeNlri(EncodeAll(ps), afi) == Ok(ps)
  {
    AcceptedNetworks(b, afi);
    RoundTrip(DecodeNlri(b, afi).value, afi);
  }

  // ---------------------------------------------------------------------------
  // What is on the wire, as numbers (section 4.3 of RFC 4271)
  // ---------------------------------------------------------------------------

  /** `k` is the least number of octets that hold `len` bits. */
  predicate Holds(k: nat, len: Byte) {
    8 * k - 8 < len <= 8 * k
  }

  lemma OctetsHold(len: Byte, k: nat)
    ensures Holds(PrefixOctets(len), len)
    ensures Holds(k, len) ==> k == PrefixOctets(len)
  {
  }

  /** A prefix takes its length octet and the least number of octets that hold the length: the first ones of its
      address. */
  lemma EncodedOctets(p: Prefix, k: nat)
    requires Writable(p) && Holds(k, Base(p).len)
    ensures k <= |Base(p).addr| && Encode(p) == [Base(p).len] + Base(p).addr[..k] && |Encode(p)| == 1 + k
  {
    OctetsHold(Base(p).len, k);
  }

  lemma {:induction false} ZerosAreZero(n: nat)
    ensures Number(seq(n, _ => 0)) == 0
  {
    var zeros: seq<Byte> := seq(n, _ => 0);
    if n > 0 {
      assert Front(zeros) == seq(n - 1, _ => 0);
      ZerosAreZero(n - 1);
    }
  }

  /** Padding with zero octets shifts the number. */
  lemma PadShifts(chunk: seq<Byte>, n: nat)
    requires |chunk| <= n
    ensures Number(Pad(chunk, n)) == Number(chunk) * Pow2(8 * (n - |chunk|))
  {
    NumberAppend(chunk, seq(n - |chunk|, _ => 0));
    ZerosAreZero(n - |chunk|);
  }

  /** Clearing host bits octet by octet is rounding the address down to a multiple. */
  lemma {:induction false} MaskRoundsDown(addr: seq<Byte>, len: Byte)
    requires len <= 8 * |addr|
    ensures Number(Mask(addr, len)) == RoundDown(Number(addr), Pow2(8 * |addr| - len))
  {
    if addr == [] {
      assert Mask(addr, len) == [];
      OctetPowers(0);
    } else if len > 8 * |addr| - 8 {
      MaskLastOctet(addr, len);
    } else {
      MaskDropsOctet(addr, len);
      MaskRoundsDown(Front(addr), len);
      FloorDigits(Number(Front(addr)), Last(addr), 8 * |addr| - 8 - len);
    }
  }

  /** The boundary lies in the last octet. */
  lemma MaskLastOctet(addr: seq<Byte>, len: Byte)
    requires addr != [] && 8 * |addr| - 8 < len <= 8 * |addr|
    ensures Number(Mask(addr, len)) == RoundDown(Number(addr), Pow2(8 * |addr| - len))
  {
    var k: nat := 8 * |addr| - len;
    assert Mask(addr, len) == Front(addr) + [ClearLow(Last(addr), k)] by { MaskFront(addr, len); }
    NumberSnoc(Front(addr), ClearLow(Last(addr), k));
    ClearInPlace(Number(Front(addr)), Last(addr), k);
  }

  lemma MaskFront(addr: seq<Byte>, len: Byte)
    requires addr != [] && 8 * |addr| - 8 < len <= 8 * |addr|
    ensures Mask(addr, len) == Front(addr) + [ClearLow(Last(addr), 8 * |addr| - len)]
  {
    OctetPowers(0);
  }

  lemma ClearInPlace(high: nat, x: Byte, k: nat)
    requires k <= 8
    ensures 256 * high + ClearLow(x, k) == RoundDown(256 * high + x, Pow2(k))
  {
    OctetPowers(8);
    Pow2Add(8 - k, k);
    hide Pow2, ClearLow, RoundDown;
    ClearIsFloor(x, k);
    FloorInPlace(high, x, Pow2(8 - k), Pow2(k));
  }

  lemma FloorInPlace(high: nat, x: nat, e: nat, d: nat)
    requires d > 0 && e * d == 256
    ensures RoundDown(256 * high + x, d) == 256 * high + RoundDown(x, d)
  {
    hide RoundDown;
    Associate(high, e, d);
    FloorShift(high * e, x, d);
  }

  lemma ClearIsFloor(x: Byte, k: nat)
    requires k <= 8
    ensures ClearLow(x, k) == RoundDown(x, Pow2(k))
  {
  }

  /** The whole last octet is host bits. */
  lemma MaskDropsOctet(addr: seq<Byte>, len: Byte)
    requires addr != [] && len <= 8 * |addr| - 8
    ensures Number(Mask(addr, len)) == 256 * Number(Mask(Front(addr), len))
  {
    OctetPowers(8);
    assert Mask(addr, len) == Mask(Front(addr), len) + [0];
    NumberSnoc(Mask(Front(addr), len), 0);
  }

  lemma FloorDigits(high: nat, x: Byte, k: nat)
    ensures RoundDown(256 * high + x, Pow2(k + 8)) == 256 * RoundDown(high, Pow2(k))
  {
    OctetPowers(8);
    Pow2Add(k, 8);
    hide Pow2;
    var d := Pow2(k);
    var q := high / d;
    FloorBounds(high, d);
    BlockOfDigits(high, x, q, d);
    FloorUnique(256 * high + x, d * 256, q);
    Associate(q, d, 256);
  }

  lemma BlockOfDigits(high: nat, x: Byte, q: nat, d: nat)
    requires q * d <= high < q * d + d
    ensures q * (d * 256) <= 256 * high + x < q * (d * 256) + d * 256
  {
    Associate(q, d, 256);
  }

  /** Decoding, read off the octets: a buffer with an admissible length and the least number of octets that hold it
      decodes to the address whose first `len` bits are those of the octets, with zeros after them. */
  lemma DecodedAddress(b: seq<Byte>, afi: Afi, k: nat)
    requires b != [] && Holds(k, b[0]) && 1 + k <= |b| && b[0] <= (if afi.Ipv6? then 128 else 32)
    ensures DecodePrefix(b, afi).Ok?
    ensures var (p, n) := DecodePrefix(b, afi).value;
            && n == 1 + k && (if afi.Ipv6? then p.V6? && |p.addr| == 16 else p.V4? && |p.addr| == 4)
            && p.len == b[0]
            && Number(p.addr) == Number(b[1..1 + k]) / Pow2(8 * k - b[0]) * Pow2(8 * |p.addr| - b[0])
  {
    hide Mask, Pad, Number, Pow2;
    OctetsHold(b[0], k);
    var len, n := b[0], afi.Octets();
    var octets := b[1..1 + k];
    PadShifts(octets, n);
    MaskRoundsDown(Pad(octets, n), len);
    Pow2Add(8 * k - len, 8 * (n - k));
    assert 8 * k - len + 8 * (n - k) == 8 * n - len;
    RoundDownScaled(Number(octets), Pow2(8 * k - len), Pow2(8 * (n - k)));
  }

  /** And it fails on nothing else: too few octets, reported before a length that is too long for the family. */
  lemma DecodeFails(b: seq<Byte>, afi: Afi, k: nat)
    requires b != [] && Holds(k, b[0])
    ensures |b| < 1 + k ==> DecodePrefix(b, afi) == Err(UnexpectedEof(k, |b| - 1))
    ensures |b| >= 1 + k && b[0] > (if afi.Ipv6? then 128 else 32) ==>
              DecodePrefix(b, afi)
              == Err(InvalidPrefixLen(b[0], if afi.Ipv4? then 1 else if afi.Ipv6? then 2 else afi.code))
  {
    OctetsHold(b[0], k);
  }

  /** For example, 24 and three octets are a /24. */
  lemma SlashTwentyFour(x: Byte, y: Byte, z: Byte)
    ensures DecodeNlri([24, x, y, z], Ipv4) == Ok([V4([x, y, z, 0], 24)])
    ensures Encode(V4([x, y, z, 0], 24)) == [24, x, y, z]
  {
    var p := V4([x, y, z, 0], 24);
    OctetPowers(0);
    OctetPowers(8);
    assert Encode(p) == [24, x, y, z];
    assert Mask([x, y, z, 0], 24) == [x, y, z, 0];
    assert Truncated(p) == p;
    assert [p][1..] == [];
    assert AllOfFamily([p], Ipv4);
    RoundTrip([p], Ipv4);
    assert EncodeAll([p]) == [24, x, y, z] by { EncodeCons(p, []); assert [p] + [] == [p]; assert EncodeAll([]) == []; }
    assert TruncatedAll([p]) == [p];
  }

  // ---------------------------------------------------------------------------
  // Add-Path
  // ---------------------------------------------------------------------------

  function WithoutIds(ps: seq<Prefix>): seq<Item> {
    seq(|ps|, i requires 0 <= i < |ps| => (ps[i], None))
  }

  /** With Add-Path off the two decoders agree on every byte string, errors included. */
  lemma {:induction false} AddPathOffAgrees(b: seq<Byte>, afi: Afi)
    ensures DecodeWithPathId(b, afi, false)
            == match DecodeNlri(b, afi)
               case Ok(ps) => Ok(WithoutIds(ps))
               case Err(e) => Err(e)
               case Panic => Panic
    ensures !DecodeNlri(b, afi).Panic?
    decreases |b|
  {
    hide DecodePrefix;
    if b == [] {
      assert WithoutIds([]) == [];
    } else {
      match DecodePrefix(b, afi) {
        case Ok((p, n)) =>
          AddPathOffAgrees(b[n..], afi);
          var tail := DecodeNlri(b[n..], afi);
          if tail.Ok? {
            assert WithoutIds([p] + tail.value) == [(p, None)] + WithoutIds(tail.value);
          }
        case Err(_) =>
      }
    }
  }

  /** Well-formed items for a given Add-Path setting. */
  ghost predicate Encodable(items: seq<Item>, afi: Afi, addPath: bool)
    ensures Encodable(items, afi, addPath) ==> forall i :: 0 <= i < |items| ==> Writable(items[i].0)
  {
    forall i :: 0 <= i < |items| ==> OfFamily(items[i].0, afi) && items[i].1.Some? == addPath
  }

  function EncodeItem(item: Item): seq<Byte>
    requires Writable(item.0)
  {
    (if item.1.Some? then PutU32(item.1.value) else []) + Encode(item.0)
  }

  function EncodeItems(items: seq<Item>): seq<Byte>
    requires forall i :: 0 <= i < |items| ==> Writable(items[i].0)
  {
    if items == [] then [] else EncodeItem(items[0]) + EncodeItems(items[1..])
  }

  function TruncatedItems(items: seq<Item>): (r: seq<Item>)
    ensures |r| == |items|
  {
    if items == [] then [] else [(Truncated(items[0].0), items[0].1)] + TruncatedItems(items[1..])
  }

  lemma DecodeItem(item: Item, afi: Afi, addPath: bool, rest: seq<Byte>)
    requires OfFamily(item.0, afi) && item.1.Some? == addPath
    ensures DecodeWithPathId(EncodeItem(item) + rest, afi, addPath)
            == Cons((Truncated(item.0), item.1), DecodeWithPathId(rest, afi, addPath))
  {
    hide Truncated, DecodePrefix;
    var body := Encode(item.0) + rest;
    DecodeEncoded(item.0, afi, rest);
    if addPath {
      assert EncodeItem(item) + rest == PutU32(item.1.value) + body;
      ReadBackU32(item.1.value, body);
    } else {
      assert EncodeItem(item) + rest == body;
    }
  }

  /** Items with or without path ids decode to themselves, host bits aside. */
  lemma {:induction false} ItemsRoundTrip(items: seq<Item>, afi: Afi, addPath: bool)
    requires Encodable(items, afi, addPath)
    ensures DecodeWithPathId(EncodeItems(items), afi, addPath) == Ok(TruncatedItems(items))
  {
    hide DecodeWithPathId, EncodeItem, Truncated;
    if items == [] {
      DecodeNothing(afi, addPath);
    } else {
      DecodeItem(items[0], afi, addPath, EncodeItems(items[1..]));
      ItemsRoundTrip(items[1..], afi, addPath);
    }
  }

  lemma DecodeNothing(afi: Afi, addPath: bool)
    ensures DecodeWithPathId([], afi, addPath) == Ok([])
  {
  }

  /** The two buffers are the same Add-Path NLRI but for host bits: same path ids, same networks. */
  predicate SameItems(b: seq<Byte>, c: seq<Byte>)
    decreases |b|
  {
    if b == [] || c == [] then b == c
    else
      && |b| > 4 && |c| > 4 && b[..4] == c[..4] && SameHead(b[4..], c[4..])
      && SameItems(b[4..][1 + PrefixOctets(b[4])..], c[4..][1 + PrefixOctets(b[4])..])
  }

  lemma EncodeItemsCons(item: Item, items: seq<Item>, afi: Afi)
    requires OfFamily(item.0, afi) && item.1.Some? && Encodable(items, afi, true)
    ensures Encodable([item] + items, afi, true)
    ensures EncodeItems([item] + items) == PutU32(item.1.value) + (Encode(item.0) + EncodeItems(items))
  {
    hide OfFamily, PutU32, Encode;
    assert ([item] + items)[1..] == items;
  }

  /** Re-encoding any bytes that the Add-Path decoder accepts changes nothing but host bits. */
  lemma {:induction false} ReencodeItems(b: seq<Byte>, afi: Afi)
    requires DecodeWithPathId(b, afi, true).Ok?
    ensures var items := DecodeWithPathId(b, afi, true).value;
            && Encodable(items, afi, true) && TruncatedItems(items) == items
            && SameItems(b, EncodeItems(items))
    decreases |b|
  {
    hide DecodePrefix, Truncated, Encode, OfFamily, SameHead, EncodeItems, PrefixOctets, GetU32, PutU32;
    if b == [] {
      NoItems();
    } else {
      var rest := b[4..];
      var (p, n) := DecodePrefix(rest, afi).value;
      var item := (p, Some(GetU32(b)));
      ReencodeItems(rest[n..], afi);
      var items := DecodeWithPathId(rest[n..], afi, true).value;
      var c := EncodeItems(items);
      DecodedSameHead(rest, afi, c);
      EncodeItemsCons(item, items, afi);
      WriteBackU32(b);
      var all := PutU32(GetU32(b)) + (Encode(p) + c);
      assert all[..4] == b[..4] && all[4..] == Encode(p) + c;
      assert ([item] + items)[1..] == items;
    }
  }

  lemma NoItems()
    ensures EncodeItems([]) == []
  {
  }

  /** The bytes are well-formed items with path ids, host bits aside. */
  ghost predicate IsItemList(b: seq<Byte>, afi: Afi) {
    exists items :: Encodable(items, afi, true) && SameItems(b, EncodeItems(items))
  }

  lemma SameHeadAccepted(b: seq<Byte>, c: seq<Byte>, afi: Afi)
    requires b != [] && c != [] && SameHead(b, c) && c[0] <= 8 * afi.Octets()
    ensures DecodePrefix(b, afi).Ok? && DecodePrefix(b, afi).value.1 == 1 + PrefixOctets(b[0])
  {
    hide SameHighBits, NetworkBits;
  }

  lemma {:induction false} ItemListAccepted(b: seq<Byte>, afi: Afi, items: seq<Item>)
    requires Encodable(items, afi, true) && SameItems(b, EncodeItems(items))
    ensures DecodeWithPathId(b, afi, true).Ok?
    decreases |items|
  {
    hide Encode, OfFamily, SameHead, DecodePrefix, EncodeItems, GetU32, PutU32, PrefixOctets;
    if items == [] {
      NoItems();
    } else {
      var item, c := items[0], EncodeItems(items[1..]);
      assert items == [item] + items[1..];
      EncodeItemsCons(item, items[1..], afi);
      var head := Encode(item.0) + c;
      EncodedHead(item.0, afi);
      SameItemsHead(b, PutU32(item.1.value), head);
      SameHeadAccepted(b[4..], head, afi);
      var n := 1 + PrefixOctets(b[4]);
      assert head[n..] == c;
      ItemListAccepted(b[4..][n..], afi, items[1..]);
    }
  }

  lemma SameItemsHead(b: seq<Byte>, id: seq<Byte>, c: seq<Byte>)
    requires |id| == 4 && c != [] && SameItems(b, id + c)
    ensures |b| > 4 && SameHead(b[4..], c) && b[4] == c[0] && 1 + PrefixOctets(b[4]) <= |c|
    ensures 1 + PrefixOctets(b[4]) <= |b[4..]|
    ensures SameItems(b[4..][1 + PrefixOctets(b[4])..], c[1 + PrefixOctets(b[4])..])
  {
    hide SameHighBits, NetworkBits, PrefixOctets;
    assert (id + c)[4..] == c;
  }

  lemma EncodedHead(p: Prefix, afi: Afi)
    requires OfFamily(p, afi)
    ensures Encode(p) != [] && Encode(p)[0] <= 8 * afi.Octets() && |Encode(p)| == 1 + PrefixOctets(Encode(p)[0])
  {
  }

  /** The Add-Path decoder accepts exactly the well-formed item lists, host bits aside. */
  lemma AcceptsExactlyItems(b: seq<Byte>, afi: Afi)
    ensures DecodeWithPathId(b, afi, true).Ok? <==> IsItemList(b, afi)
  {
    hide DecodeWithPathId, SameItems, Encodable;
    if DecodeWithPathId(b, afi, true).Ok? {
      ReencodeItems(b, afi);
    }
    if IsItemList(b, afi) {
      var items :| Encodable(items, afi, true) && SameItems(b, EncodeItems(items));
      ItemListAccepted(b, afi, items);
    }
  }

  /** Exactly when the Add-Path decoder runs off the end of its buffer: well-formed items, then
      four bytes and nothing more. Without Add-Path it never does. */
  lemma PanicsExactly(b: seq<Byte>, afi: Afi, addPath: bool)
    ensures DecodeWithPathId(b, afi, addPath).Panic? <==> addPath && |b| >= 4 && IsItemList(b[..|b| - 4], afi)
  {
    hide DecodeWithPathId, IsItemList;
    PanicsBehindItems(b, afi, addPath);
    if |b| >= 4 {
      AcceptsExactlyItems(b[..|b| - 4], afi);
    }
  }

  lemma {:induction false} PanicsBehindItems(b: seq<Byte>, afi: Afi, addPath: bool)
    ensures DecodeWithPathId(b, afi, addPath).Panic?
            <==> addPath && |b| >= 4 && DecodeWithPathId(b[..|b| - 4], afi, addPath).Ok?
    decreases |b|
  {
    if !addPath {
      AddPathOffAgrees(b, afi);
    } else if |b| == 4 {
      assert b[..0] == [];
    } else if |b| > 4 {
      var rest := b[4..];
      match DecodePrefix(rest, afi) {
        case Ok((p, n)) =>
          PanicsBehindItems(rest[n..], afi, true);
          CutItem(b, afi, n);
        case Err(_) =>
          CutBadItem(b, afi);
      }
    }
  }

  /** Cutting four bytes off the end leaves the head item alone, if they are not part of it. */
  lemma CutItem(b: seq<Byte>, afi: Afi, n: nat)
    requires |b| > 4 && DecodePrefix(b[4..], afi).Ok? && DecodePrefix(b[4..], afi).value.1 == n
    ensures DecodeWithPathId(b[..|b| - 4], afi, true).Ok?
            <==> |b[4..][n..]| >= 4 && DecodeWithPathId(b[4..][n..][..|b[4..][n..]| - 4], afi, true).Ok?
  {
    var c := b[..|b| - 4];
    var tail := b[4..][n..];
    if |tail| >= 4 {
      assert c[4..] == b[4..][..|b| - 8];
      assert b[4..][..|b| - 8][1..n] == b[4..][1..n];
      assert DecodePrefix(c[4..], afi) == DecodePrefix(b[4..], afi);
      assert c[4..][n..] == tail[..|tail| - 4];
    } else if |c| > 4 {
      assert c[4..][0] == b[4..][0];
    }
  }

  lemma CutBadItem(b: seq<Byte>, afi: Afi)
    requires |b| > 4 && DecodePrefix(b[4..], afi).Err?
    ensures !DecodeWithPathId(b[..|b| - 4], afi, true).Ok?
  {
  }
}

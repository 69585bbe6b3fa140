/** IP networks as numbers, and what it means for one to contain another (`ipnet`). */
module IpNets {
  import opened Common
  import opened Powers

  datatype Net = Net(v6: bool, addr: nat, len: nat) {
    function Width(): nat { if v6 then 128 else 32 }
    predicate Valid() { len <= Width() && addr < Pow2(Width()) }
    /** Addresses in the network. */
    function Size(): nat requires len <= Width() { Pow2(Width() - len) }
    function Network(): nat requires len <= Width() { RoundDown(addr, Size()) }
    function Broadcast(): nat requires len <= Width() { Network() + Size() - 1 }
    /** No host bits set. */
    predicate Canonical() { Valid() && addr == Network() }
    function Trunc(): Net requires len <= Width() { this.(addr := Network()) }
  }

  /** `contains` of the library: the address range of `a` lies within that of `r`. */
  predicate Contains(r: Net, a: Net)
    requires r.len <= r.Width() && a.len <= a.Width()
  {
    r.Network() <= a.Network() && a.Broadcast() <= r.Broadcast()
  }

  /** `covers`: same family, and contained or equal. */
  predicate Covers(r: Net, a: Net)
    requires r.Valid() && a.Valid()
  {
    r.v6 == a.v6 && (Contains(r, a) || r == a)
  }

  /** The bit-by-bit meaning (section 2 of RFC 6811): `r` covers `a` exactly when it is no longer and
      the two agree in the first `r.len` bits. */
  lemma CoversIffPrefixBits(r: Net, a: Net)
    requires r.Valid() && a.Valid() && r.v6 == a.v6
    ensures var hostBits := Pow2((if r.v6 then 128 else 32) - r.len);
            Covers(r, a) <==> r.len <= a.len && a.addr / hostBits == r.addr / hostBits
  {
    if Contains(r, a) {
      ContainedAgrees(r, a);
    }
    if r.len <= a.len && a.addr / r.Size() == r.addr / r.Size() {
      AgreeingContained(r, a);
    }
  }

  lemma ContainedAgrees(r: Net, a: Net)
    requires r.Valid() && a.Valid() && r.v6 == a.v6 && Contains(r, a)
    ensures r.len <= a.len && a.addr / r.Size() == r.addr / r.Size()
  {
    hide Pow2;
    var m, k := r.Size(), a.Size();
    FloorBounds(a.addr, k);
    FloorUnique(a.addr, m, r.addr / m);
    assert k <= m;
    Pow2Monotone(r.Width() - r.len, r.Width() - a.len);
  }

  lemma AgreeingContained(r: Net, a: Net)
    requires r.Valid() && a.Valid() && r.v6 == a.v6
    requires r.len <= a.len && a.addr / r.Size() == r.addr / r.Size()
    ensures Contains(r, a)
  {
    hide Pow2;
    var m, k := r.Size(), a.Size();
    var c := Pow2Splits(r.Width() - a.len, r.Width() - r.len);
    assert m == k * c;
    FloorBounds(a.addr, m);
    FloorWithinBlock(a.addr, k, c, r.addr / m);
  }

  /** `covers` is a partial order on networks without host bits. */
  lemma CoversIsPartialOrder(x: Net, y: Net, z: Net)
    requires x.Canonical() && y.Canonical() && z.Canonical()
    ensures Covers(x, x)
    ensures Covers(x, y) && Covers(y, x) ==> x == y
    ensures Covers(x, y) && Covers(y, z) ==> Covers(x, z)
  {
    if Covers(x, y) && Covers(y, x) {
      assert x.Size() == y.Size();
      Pow2Monotone(x.Width() - x.len, x.Width() - y.len);
      Pow2Monotone(x.Width() - y.len, x.Width() - x.len);
    }
  }
}

/** The VRP table and origin validation (`crates/rbmp-enrichment/src/vrp_cache.rs`). */
module VrpCache {
  import opened Common
  import opened Powers
  import opened IpNets

  datatype Vrp = Vrp(prefix: Net, maxLen: Byte, asn: U32)

  datatype RpkiState = NotFound | Invalid | Valid {
    /** The order in which more VRPs can move a route. */
    function Level(): nat { if NotFound? then 0 else if Invalid? then 1 else 2 }
  }

  predicate AllValid(es: seq<Vrp>) {
    forall i :: 0 <= i < |es| ==> es[i].prefix.Valid()
  }

  /** Removal ignores the maximum length. */
  predicate SameRoa(a: Vrp, b: Vrp) {
    a.prefix == b.prefix && a.asn == b.asn
  }

  /** `es` without the entries that `r` withdraws. */
  function Without(es: seq<Vrp>, r: Vrp): seq<Vrp> {
    if es == [] then []
    else if SameRoa(Last(es), r) then Without(Front(es), r)
    else Without(Front(es), r) + [Last(es)]
  }

  function Minus(es: seq<Vrp>, removes: seq<Vrp>): seq<Vrp> {
    if removes == [] then es else Without(Minus(es, Front(removes)), Last(removes))
  }

  /** What is left after withdrawals: the entries no withdrawal names, in order. */
  lemma {:induction false} WithoutKeeps(es: seq<Vrp>, r: Vrp, e: Vrp)
    ensures e in Without(es, r) <==> e in es && !SameRoa(e, r)
    ensures AllValid(es) ==> AllValid(Without(es, r))
  {
    if es != [] {
      WithoutKeeps(Front(es), r, e);
      assert es == Front(es) + [Last(es)];
    }
  }

  lemma {:induction false} MinusKeeps(es: seq<Vrp>, removes: seq<Vrp>, e: Vrp)
    ensures e in Minus(es, removes)
            <==> e in es && forall r :: r in removes ==> !(e.prefix == r.prefix && e.asn == r.asn)
  {
    if removes != [] {
      MinusKeeps(es, Front(removes), e);
      WithoutKeeps(Minus(es, Front(removes)), Last(removes), e);
      assert removes == Front(removes) + [Last(removes)];
    }
  }

  // ---------------------------------------------------------------------------
  // Validation, as section 2 of RFC 6811 defines it
  // ---------------------------------------------------------------------------

  predicate Found(es: seq<Vrp>, route: Net)
    requires AllValid(es) && route.Valid()
  {
    exists i :: 0 <= i < |es| && Covers(es[i].prefix, route)
  }

  predicate Matched(es: seq<Vrp>, route: Net, asn: U32)
    requires AllValid(es) && route.Valid()
  {
    exists i :: 0 <= i < |es| && Covers(es[i].prefix, route) && es[i].asn == asn && es[i].maxLen >= route.len
  }

  function Validate(es: seq<Vrp>, route: Net, asn: U32): RpkiState
    requires AllValid(es) && route.Valid()
  {
    if Matched(es, route, asn) then RpkiState.Valid else if Found(es, route) then Invalid else NotFound
  }

  class Cache {
    var entries: seq<Vrp>
    var serial: U32

    constructor ()
      ensures entries == [] && serial == 0
    {
      entries, serial := [], 0;
    }

    method Reset(entries: seq<Vrp>, serial: U32)
      modifies this
      ensures this.entries == entries && this.serial == serial
    {
      this.entries, this.serial := entries, serial;
    }

    method ApplyDelta(adds: seq<Vrp>, removes: seq<Vrp>, serial: U32)
      modifies this
      ensures entries == Minus(old(entries), removes) + adds && this.serial == serial
    {
      for i := 0 to |removes|
        invariant entries == Minus(old(entries), removes[..i])
      {
        assert Front(removes[..i + 1]) == removes[..i];
        entries := Retain(entries, removes[i]);
      }
      assert removes[..|removes|] == removes;
      entries := entries + adds;
      this.serial := serial;
    }

    method Retain(es: seq<Vrp>, r: Vrp) returns (kept: seq<Vrp>)
      ensures kept == Without(es, r)
    {
      kept := [];
      for i := 0 to |es|
        invariant kept == Without(es[..i], r)
      {
        assert Front(es[..i + 1]) == es[..i];
        if !SameRoa(es[i], r) {
          kept := kept + [es[i]];
        }
      }
      assert es[..|es|] == es;
    }

    /** First the covering entries are collected, then one that matches is looked for. */
    method ValidateRoute(route: Net, asn: U32) returns (state: RpkiState)
      requires AllValid(entries) && route.Valid()
      ensures state == Validate(entries, route, asn)
    {
      hide Covers;
      var covering: seq<Vrp> := [];
      for i := 0 to |entries|
        invariant forall e :: e in covering <==> exists j :: 0 <= j < i && entries[j] == e && Covers(e.prefix, route)
      {
        if Covers(entries[i].prefix, route) {
          covering := covering + [entries[i]];
        }
      }
      if covering == [] {
        assert forall j :: 0 <= j < |entries| && Covers(entries[j].prefix, route) ==> entries[j] in covering;
        return NotFound;
      }
      assert covering[0] in covering;
      for i := 0 to |covering|
        invariant forall j :: 0 <= j < i ==> !(covering[j].asn == asn && covering[j].maxLen >= route.len)
      {
        if covering[i].asn == asn && covering[i].maxLen >= route.len {
          assert covering[i] in covering;
          return RpkiState.Valid;
        }
      }
      forall j | 0 <= j < |entries| && Covers(entries[j].prefix, route)
        ensures !(entries[j].asn == asn && entries[j].maxLen >= route.len)
      {
        assert entries[j] in covering;
      }
      return Invalid;
    }
  }

  // ---------------------------------------------------------------------------
  // Laws of validation
  // ---------------------------------------------------------------------------

  /** A VRP covers a route of its family that is not shorter and agrees with it in the bits of its prefix. */
  ghost predicate CoversBits(v: Vrp, route: Net)
    requires v.prefix.Valid() && route.Valid()
  {
    && v.prefix.v6 == route.v6 && v.prefix.len <= route.len
    && var hostBits := Pow2((if route.v6 then 128 else 32) - v.prefix.len);
       v.prefix.addr / hostBits == route.addr / hostBits
  }

  /** The verdict in full: NotFound if and only if no VRP covers the route, and Valid if and only if one that does
      has its origin and allows its length, whatever else is in the table. */
  lemma ValidateMeans(es: seq<Vrp>, route: Net, asn: U32)
    requires AllValid(es) && route.Valid()
    ensures Validate(es, route, asn) == NotFound <==> forall i :: 0 <= i < |es| ==> !CoversBits(es[i], route)
    ensures Validate(es, route, asn) == RpkiState.Valid
            <==> exists i :: 0 <= i < |es| && CoversBits(es[i], route) && es[i].asn == asn && route.len <= es[i].maxLen
  {
    hide Covers, CoversBits;
    forall i | 0 <= i < |es| ensures CoversBits(es[i], route) <==> Covers(es[i].prefix, route) {
      CoversBitsIff(es[i], route);
    }
  }

  lemma CoversBitsIff(v: Vrp, route: Net)
    requires v.prefix.Valid() && route.Valid()
    ensures CoversBits(v, route) <==> Covers(v.prefix, route)
  {
    hide Pow2;
    if v.prefix.v6 == route.v6 {
      CoversIffPrefixBits(v.prefix, route);
    }
  }

  /** More VRPs, in any order and number, only move a route up: NotFound, Invalid, Valid. */
  lemma ValidateMonotone(es: seq<Vrp>, more: seq<Vrp>, route: Net, asn: U32)
    requires AllValid(es) && AllValid(more) && route.Valid()
    requires forall e :: e in es ==> e in more
    ensures Validate(es, route, asn).Level() <= Validate(more, route, asn).Level()
  {
    hide Covers;
    forall i | 0 <= i < |es| ensures exists j :: 0 <= j < |more| && more[j] == es[i] {
      assert es[i] in es;
    }
  }

  /** So order and duplicates do not matter. */
  lemma ValidateIgnoresOrder(es: seq<Vrp>, other: seq<Vrp>, route: Net, asn: U32)
    requires AllValid(es) && AllValid(other) && route.Valid()
    requires forall e :: e in es <==> e in other
    ensures Validate(es, route, asn) == Validate(other, route, asn)
  {
    ValidateMonotone(es, other, route, asn);
    ValidateMonotone(other, es, route, asn);
  }

  /** A more specific of a route that is found is found. */
  lemma MoreSpecificFound(es: seq<Vrp>, route: Net, specific: Net, asn: U32)
    requires AllValid(es) && route.Valid() && specific.Valid() && Covers(route, specific)
    requires Validate(es, route, asn) != NotFound
    ensures Validate(es, specific, asn) != NotFound
  {
  }
}

/** Small value types shared by every module. */
module Common {

  datatype Option<+T> = None | Some(value: T)

  /** The result of a parser that can fail, and can also abort on an unchecked read. */
  datatype Outcome<+T, +E> = Ok(value: T) | Err(error: E) | Panic

  /** All byte arithmetic is done on integers in range, so that shifts and masks
      are written out as division and remainder. */
  type Byte = x: int | 0 <= x < 256 witness 0
  type U16 = x: int | 0 <= x < 0x1_0000 witness 0
  type U32 = x: int | 0 <= x < 0x1_0000_0000 witness 0

  const U32_MAX: U32 := 0xFFFF_FFFF

  function Front<T>(s: seq<T>): seq<T>
    requires s != []
  {
    s[..|s| - 1]
  }

  function Last<T>(s: seq<T>): T
    requires s != []
  {
    s[|s| - 1]
  }

  /** Concatenation of a list of chunks. */
  function Flatten<T>(chunks: seq<seq<T>>): seq<T> {
    if chunks == [] then [] else chunks[0] + Flatten(chunks[1..])
  }

  lemma {:induction false} FlattenSnoc<T>(chunks: seq<seq<T>>, last: seq<T>)
    ensures Flatten(chunks + [last]) == Flatten(chunks) + last
  {
    if chunks == [] {
      assert chunks + [last] == [last];
      assert [last][1..] == [];
    } else {
      assert (chunks + [last])[1..] == chunks[1..] + [last];
      FlattenSnoc(chunks[1..], last);
    }
  }
}

/** Powers of two and multiples. */
module Powers {

  /** Two to the power of `k`. */
  function Pow2(k: nat): (p: nat)
    ensures p >= 1
  {
    if k == 0 then 1 else 2 * Pow2(k - 1)
  }

  /** Powers of two within an octet. */
  lemma OctetPowers(k: nat)
    requires k <= 8
    ensures Pow2(k) == if k == 0 then 1 else if k == 1 then 2 else if k == 2 then 4 else if k == 3 then 8
                       else if k == 4 then 16 else if k == 5 then 32 else if k == 6 then 64
                       else if k == 7 then 128 else 256
  {
    if k > 0 {
      OctetPowers(k - 1);
    }
  }

  lemma {:induction false} Pow2Add(j: nat, k: nat)
    ensures Pow2(j + k) == Pow2(j) * Pow2(k)
  {
    if k > 0 {
      Pow2Add(j, k - 1);
      assert Pow2(j) * (2 * Pow2(k - 1)) == 2 * (Pow2(j) * Pow2(k - 1));
    }
  }

  lemma FloorBounds(x: nat, d: nat)
    requires d > 0
    ensures x / d * d <= x < x / d * d + d
  {
  }

  /** The greatest multiple of `d` that is not above `x`. */
  function RoundDown(x: nat, d: nat): (r: nat)
    requires d > 0
    ensures r <= x < r + d
  {
    FloorBounds(x, d);
    x / d * d
  }

  lemma {:induction false} Pow2Monotone(j: nat, k: nat)
    ensures j < k ==> Pow2(j) < Pow2(k)
    ensures j <= k ==> Pow2(j) <= Pow2(k)
    decreases k
  {
    if j < k {
      Pow2Monotone(j, k - 1);
    }
  }

  lemma {:induction false} Pow2Splits(j: nat, k: nat) returns (q: nat)
    requires j <= k
    ensures Pow2(k) == Pow2(j) * q
    decreases k
  {
    if j == k {
      q := 1;
    } else {
      var h := Pow2Splits(j, k - 1);
      q := 2 * h;
      assert Pow2(j) * (2 * h) == 2 * (Pow2(j) * h);
    }
  }

  lemma MulMonotone(a: nat, b: nat, d: nat)
    requires a <= b
    ensures a * d <= b * d
  {
  }

  lemma StepUp(q: nat, r: nat, d: nat)
    requires q < r
    ensures q * d + d <= r * d
  {
    assert (q + 1) * d == q * d + d;
    MulMonotone(q + 1, r, d);
  }

  lemma FloorAtLeast(x: nat, d: nat, q: nat)
    requires d > 0 && q * d <= x
    ensures q <= x / d
  {
    FloorBounds(x, d);
    if x / d < q {
      StepUp(x / d, q, d);
      assert false;
    }
  }

  lemma FloorBelow(x: nat, d: nat, q: nat)
    requires d > 0 && x < q * d
    ensures x / d < q
  {
    FloorBounds(x, d);
    if q <= x / d {
      MulMonotone(q, x / d, d);
      assert false;
    }
  }

  /** The quotient is the only multiple whose step contains `x`. */
  lemma FloorUnique(x: nat, d: nat, q: nat)
    requires d > 0 && q * d <= x < q * d + d
    ensures x / d == q
  {
    FloorAtLeast(x, d, q);
    assert (q + 1) * d == q * d + d;
    FloorBelow(x, d, q + 1);
  }

  /** Rounding down to a multiple of `k` stays within any block of a multiple of `k` around `x`. */
  lemma FloorWithinBlock(x: nat, k: nat, c: nat, q: nat)
    requires k > 0 && q * (k * c) <= x < q * (k * c) + k * c
    ensures q * (k * c) <= x / k * k && x / k * k + k <= q * (k * c) + k * c
  {
    var lo := q * c;
    assert q * (k * c) == lo * k;
    var hi := lo + c;
    assert hi * k == lo * k + k * c;
    FloorAtLeast(x, k, lo);
    FloorBelow(x, k, hi);
    MulMonotone(lo, x / k, k);
    StepUp(x / k, hi, k);
  }

  lemma FloorShift(n: nat, x: nat, d: nat)
    requires d > 0
    ensures RoundDown(n * d + x, d) == n * d + RoundDown(x, d)
  {
    FloorBounds(x, d);
    assert (n + x / d) * d == n * d + x / d * d;
    FloorUnique(n * d + x, d, n + x / d);
  }

  /** Rounding `x * d` down to a multiple of `e * d` is rounding `x` down to a multiple of `e`. */
  lemma RoundDownScaled(x: nat, e: nat, d: nat)
    requires e > 0 && d > 0 && e * d > 0
    ensures RoundDown(x * d, e * d) == x / e * (e * d)
  {
    var q := x / e;
    FloorBounds(x, e);
    ScaledBlock(x, q, e, d);
    FloorUnique(x * d, e * d, q);
  }

  lemma ScaledBlock(x: nat, q: nat, e: nat, d: nat)
    requires d > 0 && q * e <= x < q * e + e
    ensures q * (e * d) <= x * d < q * (e * d) + e * d
  {
    MulMonotone(q * e, x, d);
    StepUp(x, q * e + e, d);
    Associate(q, e, d);
    Distribute(q * e, e, d);
  }

  lemma Associate(a: nat, b: nat, c: nat)
    ensures a * b * c == a * (b * c)
  {
  }

  lemma Distribute(a: nat, b: nat, c: nat)
    ensures (a + b) * c == a * c + b * c
  {
  }
}

/** Big-endian integers on byte sequences. */
module BigEndian {
  import opened Common
  import opened Powers

  /** Octets as a number, the first one the most significant. */
  function Number(b: seq<Byte>): (n: nat) {
    if b == [] then 0 else 256 * Number(Front(b)) + Last(b)
  }

  lemma Pow2Byte(n: nat)
    ensures Pow2(8 * (n + 1)) == 256 * Pow2(8 * n)
  {
    Pow2Add(8 * n, 8);
    OctetPowers(8);
  }

  lemma {:induction false} NumberBound(b: seq<Byte>)
    ensures Number(b) < Pow2(8 * |b|)
  {
    if b != [] {
      NumberBound(Front(b));
      Pow2Byte(|b| - 1);
    }
  }

  /** The digits of a number: an octet counts for itself, and for 256 times as much for each octet behind it. */
  lemma {:induction false} NumberAppend(a: seq<Byte>, b: seq<Byte>)
    ensures Number(a + b) == Number(a) * Pow2(8 * |b|) + Number(b)
  {
    hide Pow2;
    if b == [] {
      assert a + b == a;
      OctetPowers(0);
    } else {
      assert Front(a + b) == a + Front(b);
      NumberAppend(a, Front(b));
      Pow2Byte(|b| - 1);
      assert (a + b) != [] && Last(a + b) == Last(b);
      NumberScaled(Number(a), Pow2(8 * (|b| - 1)));
    }
  }

  lemma NumberScaled(n: nat, p: nat)
    ensures 256 * (n * p) == n * (256 * p)
  {
  }

  lemma NumberOfOne(x: Byte)
    ensures Number([x]) == x
  {
    assert Front([x]) == [];
  }

  /** The fixed-width readers read big-endian numbers. */
  lemma ReadersAreBigEndian(s: seq<Byte>)
    ensures |s| >= 2 ==> GetU16(s) == Number(s[..2])
    ensures |s| >= 3 ==> GetU24(s) == Number(s[..3])
    ensures |s| >= 4 ==> GetU32(s) == Number(s[..4])
  {
    hide Number;
    if |s| >= 2 {
      NumberOfOne(s[0]);
      NumberSnoc(s[..1], s[1]);
      assert s[..1] == [s[0]] && s[..1] + [s[1]] == s[..2];
    }
    if |s| >= 3 {
      NumberSnoc(s[..2], s[2]);
      assert s[..2] + [s[2]] == s[..3];
    }
    if |s| >= 4 {
      NumberSnoc(s[..3], s[3]);
      assert s[..3] + [s[3]] == s[..4];
    }
  }

  lemma NumberSnoc(b: seq<Byte>, x: Byte)
    ensures Number(b + [x]) == 256 * Number(b) + x
  {
    assert Front(b + [x]) == b;
  }

  function GetU16(s: seq<Byte>): (n: U16)
    requires |s| >= 2
  {
    (s[0] as int) * 256 + s[1]
  }

  function GetU24(s: seq<Byte>): (n: U32)
    requires |s| >= 3
    ensures n < 0x100_0000
  {
    (s[0] as int) * 0x1_0000 + (s[1] as int) * 256 + s[2]
  }

  function GetU32(s: seq<Byte>): (n: U32)
    requires |s| >= 4
  {
    (s[0] as int) * 0x100_0000 + (s[1] as int) * 0x1_0000 + (s[2] as int) * 256 + s[3]
  }

  function PutU16(n: U16): (s: seq<Byte>)
    ensures |s| == 2 && GetU16(s) == n
  {
    [n / 256, n % 256]
  }

  function PutU24(n: U32): (s: seq<Byte>)
    requires n < 0x100_0000
    ensures |s| == 3 && GetU24(s) == n
  {
    [n / 0x1_0000, n / 256 % 256, n % 256]
  }

  function PutU32(n: U32): (s: seq<Byte>)
    ensures |s| == 4 && GetU32(s) == n
  {
    var high := n / 256;
    var higher := high / 256;
    [higher / 256, higher % 256, high % 256, n % 256]
  }

  /** Reading a field that was written in front of other bytes gives it back, and
      leaves those bytes. */
  lemma ReadBackU16(n: U16, rest: seq<Byte>)
    ensures GetU16(PutU16(n) + rest) == n && (PutU16(n) + rest)[2..] == rest
  {
  }

  lemma ReadBackU32(n: U32, rest: seq<Byte>)
    ensures GetU32(PutU32(n) + rest) == n && (PutU32(n) + rest)[4..] == rest
  {
  }

  lemma WriteBackU16(s: seq<Byte>)
    requires |s| >= 2
    ensures PutU16(GetU16(s)) == s[..2]
  {
  }

  lemma WriteBackU32(s: seq<Byte>)
    requires |s| >= 4
    ensures PutU32(GetU32(s)) == s[..4]
  {
    var high := (s[0] as int) * 0x1_0000 + (s[1] as int) * 256 + s[2];
    var higher := (s[0] as int) * 256 + s[1];
    assert GetU32(s) == 256 * high + s[3] && high == 256 * higher + s[2];
    assert GetU32(s) / 256 == high && high / 256 == higher;
  }

  /** `b` with its `k` low bits cleared. */
  function ClearLow(b: Byte, k: nat): (r: Byte)
    requires k <= 8
    ensures r <= b && b - r < Pow2(k)
  {
    OctetPowers(k);
    b / Pow2(k) * Pow2(k)
  }
}

/** Errors of the BGP parsers (`crates/rbmp-core/src/error.rs`). A bad attribute is one whose decoder, not
    modelled further, rejects the value. */
module BgpErrors {
  import opened Common

  datatype Error =
    | UnexpectedEof(needed: nat, have: nat)
    | UnknownSegmentType(segType: Byte)
    | InvalidPrefixLen(prefixLen: Byte, afi: U16)
    | InvalidBgpMarker
    | InvalidBgpMessageType(msgType: Byte)
    | TruncatedAttribute(attrType: Byte, declared: nat, available: nat)
    | BadAttribute(attrType: Byte)
}

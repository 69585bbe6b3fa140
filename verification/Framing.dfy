/**
 Incremental framing of byte streams: the drain loops of `crates/rbmp-server/src/receiver.rs`,
 `crates/rbmp-server/src/proxy.rs` and `crates/rbmp-enrichment/src/rtr.rs`.
 */
module Framing {
  import opened Common
  import opened BigEndian

  datatype Protocol = Bmp | Proxy | Rtr {
    function HeaderLen(): nat { if Rtr? then 8 else 6 }
  }

  function FrameLen(p: Protocol, b: seq<Byte>): U32
    requires |b| >= p.HeaderLen()
  {
    GetU32(if p.Rtr? then b[4..] else b[1..])
  }

  /** Where the length stands: in octets 1 to 4 of a BMP header of 6 (section 4.1 of RFC 7854), and in octets 4 to 7
      of an RTR header of 8 (section 5 of RFC 8210), big-endian. */
  lemma LengthField(b: seq<Byte>)
    ensures |b| >= 6 ==> FrameLen(Bmp, b) == FrameLen(Proxy, b) == Number(b[1..5])
    ensures |b| >= 8 ==> FrameLen(Rtr, b) == Number(b[4..8])
    ensures Bmp.HeaderLen() == Proxy.HeaderLen() == 6 && Rtr.HeaderLen() == 8
  {
    if |b| >= 6 {
      ReadersAreBigEndian(b[1..]);
      assert b[1..][..4] == b[1..5];
    }
    if |b| >= 8 {
      ReadersAreBigEndian(b[4..]);
      assert b[4..][..4] == b[4..8];
    }
  }

  /** What a drain loop does next. `Halt` is where the BMP loop stops making progress (length zero) and
      where the RTR session ends (length under the header); the proxy waits for ever instead. */
  datatype Turn = NeedMore | Take(n: nat) | Halt

  function NextTurn(p: Protocol, b: seq<Byte>): (t: Turn)
    ensures t.Take? ==> 0 < t.n <= |b|
  {
    if |b| < p.HeaderLen() then NeedMore
    else
      var n := FrameLen(p, b);
      match p
      case Bmp => if n == 0 then Halt else if |b| < n then NeedMore else Take(n)
      case Proxy => if n == 0 || |b| < n then NeedMore else Take(n)
      case Rtr => if n < 8 then Halt else if |b| < n then NeedMore else Take(n)
  }

  /** Frames delivered, bytes left in the buffer, and whether the loop halted. */
  datatype Split = Split(frames: seq<seq<Byte>>, rest: seq<Byte>, halted: bool)

  const NOTHING := Split([], [], false)

  /** Splitting a whole stream at once. */
  function Drain(p: Protocol, b: seq<Byte>): Split
    decreases |b|
  {
    match NextTurn(p, b)
    case NeedMore => Split([], b, false)
    case Halt => Split([], b, true)
    case Take(n) =>
      var tail := Drain(p, b[n..]);
      tail.(frames := [b[..n]] + tail.frames)
  }

  /** One read: the chunk goes behind the buffer, then complete frames are drained. */
  function Feed(p: Protocol, s: Split, chunk: seq<Byte>): Split {
    if s.halted then s
    else
      var d := Drain(p, s.rest + chunk);
      Split(s.frames + d.frames, d.rest, d.halted)
  }

  function FeedAll(p: Protocol, chunks: seq<seq<Byte>>): Split {
    if chunks == [] then NOTHING else Feed(p, FeedAll(p, Front(chunks)), Last(chunks))
  }

  class FrameReader {
    const protocol: Protocol
    var buf: seq<Byte>
    var frames: seq<seq<Byte>>
    var halted: bool

    ghost function View(): Split
      reads this
    {
      Split(frames, buf, halted)
    }

    constructor (protocol: Protocol)
      ensures this.protocol == protocol && View() == NOTHING
    {
      this.protocol := protocol;
      buf, frames, halted := [], [], false;
    }

    /** A read, and the drain loop that follows it. */
    method OnRead(chunk: seq<Byte>)
      modifies this
      ensures View() == Feed(protocol, old(View()), chunk)
    {
      if halted {
        return;
      }
      buf := buf + chunk;
      ghost var start := buf;
      assert frames + Drain(protocol, start).frames == old(frames) + Drain(protocol, buf).frames;
      while true
        invariant !halted
        invariant frames + Drain(protocol, buf).frames == old(frames) + Drain(protocol, start).frames
        invariant Drain(protocol, buf).rest == Drain(protocol, start).rest
        invariant Drain(protocol, buf).halted == Drain(protocol, start).halted
        decreases |buf|
      {
        var turn := NextTurn(protocol, buf);
        match turn {
          case NeedMore => return;
          case Halt =>
            halted := true;
            return;
          case Take(n) =>
            var frame := buf[..n];
            assert frames + ([frame] + Drain(protocol, buf[n..]).frames)
                   == (frames + [frame]) + Drain(protocol, buf[n..]).frames;
            frames := frames + [frame];
            buf := buf[n..];
        }
      }
    }
  }

  // ---------------------------------------------------------------------------
  // Chunking does not matter
  // ---------------------------------------------------------------------------

  /** More bytes behind the buffer do not change a turn that could already be taken. */
  lemma TurnStable(p: Protocol, b: seq<Byte>, more: seq<Byte>)
    requires !NextTurn(p, b).NeedMore?
    ensures NextTurn(p, b + more) == NextTurn(p, b)
  {
  }

  /** One turn of the splitter. */
  lemma DrainTurn(p: Protocol, b: seq<Byte>)
    ensures match NextTurn(p, b)
            case NeedMore => Drain(p, b) == Split([], b, false)
            case Halt => Drain(p, b) == Split([], b, true)
            case Take(n) =>
              && 0 < n <= |b|
              && Drain(p, b) == Split([b[..n]] + Drain(p, b[n..]).frames, Drain(p, b[n..]).rest,
                                      Drain(p, b[n..]).halted)
  {
  }

  /** Draining `a + b` is draining `a`, then what it left together with `b`. */
  ghost function Continue(p: Protocol, d: Split, b: seq<Byte>): Split {
    if d.halted then Split(d.frames, d.rest + b, true)
    else var e := Drain(p, d.rest + b); Split(d.frames + e.frames, e.rest, e.halted)
  }

  lemma {:induction false} DrainConcat(p: Protocol, a: seq<Byte>, b: seq<Byte>)
    ensures Drain(p, a + b) == Continue(p, Drain(p, a), b)
    decreases |a|
  {
    hide NextTurn, Drain;
    DrainTurn(p, a);
    match NextTurn(p, a) {
      case NeedMore =>
        assert [] + Drain(p, a + b).frames == Drain(p, a + b).frames;
      case Halt =>
        TurnStable(p, a, b);
        DrainTurn(p, a + b);
      case Take(n) =>
        TurnStable(p, a, b);
        DrainTurn(p, a + b);
        assert (a + b)[n..] == a[n..] + b && (a + b)[..n] == a[..n];
        DrainConcat(p, a[n..], b);
        ContinuePrepends(p, a[..n], Drain(p, a[n..]), b);
    }
  }

  lemma ContinuePrepends(p: Protocol, frame: seq<Byte>, d: Split, b: seq<Byte>)
    ensures var c := Continue(p, d, b);
            Continue(p, d.(frames := [frame] + d.frames), b) == c.(frames := [frame] + c.frames)
  {
  }

  /** However the stream is cut into reads, the frames delivered are those of the whole stream, and so
      is the leftover buffer unless the loop halted. */
  lemma {:induction false} ChunkingIrrelevant(p: Protocol, chunks: seq<seq<Byte>>)
    ensures FeedAll(p, chunks).frames == Drain(p, Flatten(chunks)).frames
    ensures FeedAll(p, chunks).halted == Drain(p, Flatten(chunks)).halted
    ensures !FeedAll(p, chunks).halted ==> FeedAll(p, chunks).rest == Drain(p, Flatten(chunks)).rest
  {
    if chunks != [] {
      ChunkingIrrelevant(p, Front(chunks));
      assert chunks == Front(chunks) + [Last(chunks)];
      FlattenSnoc(Front(chunks), Last(chunks));
      DrainConcat(p, Flatten(Front(chunks)), Last(chunks));
    }
  }

  lemma FlattenNothing<T>()
    ensures Flatten<T>([]) == []
  {
  }

  lemma FlattenCons<T>(head: seq<T>, tail: seq<seq<T>>)
    ensures Flatten([head] + tail) == head + Flatten(tail)
  {
  }

  /** No byte is lost, duplicated or reordered: frames and leftover make up the stream. */
  lemma {:induction false} NoByteLost(p: Protocol, b: seq<Byte>)
    ensures Flatten(Drain(p, b).frames) + Drain(p, b).rest == b
    decreases |b|
  {
    hide NextTurn, Flatten, Drain;
    FlattenNothing<Byte>();
    DrainTurn(p, b);
    match NextTurn(p, b) {
      case Take(n) =>
        NoByteLost(p, b[n..]);
        var tail := Drain(p, b[n..]);
        FlattenCons(b[..n], tail.frames);
        assert b == b[..n] + (Flatten(tail.frames) + tail.rest);
      case _ =>
    }
  }

  /** The first frame of a buffer is as long as its length field says, and the rest is split on its own. */
  lemma FirstFrame(p: Protocol, b: seq<Byte>, n: nat)
    requires |b| >= p.HeaderLen() && n == FrameLen(p, b) && n <= |b| && n >= if p.Rtr? then 8 else 1
    ensures Drain(p, b) == Split([b[..n]] + Drain(p, b[n..]).frames, Drain(p, b[n..]).rest, Drain(p, b[n..]).halted)
  {
  }

  /** And the buffer waits for more while its header or its first frame is not whole. */
  lemma Waits(p: Protocol, b: seq<Byte>)
    requires |b| < p.HeaderLen() || (FrameLen(p, b) > |b| && FrameLen(p, b) >= 8)
    ensures Drain(p, b) == Split([], b, false)
  {
  }

  /** A bad length field in front: zero halts the BMP loop and leaves the proxy waiting, one under the header ends the
      RTR session; the bytes stay where they are. */
  lemma BadLength(b: seq<Byte>)
    ensures |b| >= 6 && Number(b[1..5]) == 0 ==>
              Drain(Bmp, b) == Split([], b, true) && Drain(Proxy, b) == Split([], b, false)
    ensures |b| >= 8 && Number(b[4..8]) < 8 ==> Drain(Rtr, b) == Split([], b, true)
  {
    hide Number;
    LengthField(b);
  }

  /** What a sender puts around the length field: one byte in front for BMP, four for RTR, and at least
      the rest of the header behind. */
  predicate Framable(p: Protocol, first: seq<Byte>, rest: seq<Byte>) {
    && (if p.Rtr? then |first| == 4 else |first| == 1 && |rest| >= 1)
    && |first| + 4 + |rest| < 0x1_0000_0000
  }

  /** A frame as its sender builds it: the length field counts the whole frame. */
  function BuildFrame(p: Protocol, first: seq<Byte>, rest: seq<Byte>): seq<Byte>
    requires Framable(p, first, rest)
  {
    first + (PutU32(|first| + 4 + |rest|) + rest)
  }

  ghost predicate WellFormed(p: Protocol, f: seq<Byte>) {
    exists first, rest :: Framable(p, first, rest) && f == BuildFrame(p, first, rest)
  }

  lemma TakesBuilt(p: Protocol, first: seq<Byte>, rest: seq<Byte>, more: seq<Byte>)
    requires Framable(p, first, rest)
    ensures NextTurn(p, BuildFrame(p, first, rest) + more) == Take(|first| + 4 + |rest|)
    ensures |BuildFrame(p, first, rest)| == |first| + 4 + |rest|
  {
    hide GetU32, PutU32;
    var n := |first| + 4 + |rest|;
    var b := BuildFrame(p, first, rest) + more;
    assert b[|first|..] == PutU32(n) + (rest + more);
    ReadBackU32(n, rest + more);
  }

  lemma TakesWellFormed(p: Protocol, f: seq<Byte>, more: seq<Byte>)
    requires WellFormed(p, f)
    ensures NextTurn(p, f + more) == Take(|f|)
  {
    hide NextTurn, BuildFrame;
    var first, rest :| Framable(p, first, rest) && f == BuildFrame(p, first, rest);
    TakesBuilt(p, first, rest, more);
  }

  /** A stream of well-formed frames, then the start of another, splits into exactly those frames. */
  lemma {:induction false} FramesSplitBack(p: Protocol, frames: seq<seq<Byte>>, partial: seq<Byte>)
    requires forall i :: 0 <= i < |frames| ==> WellFormed(p, frames[i])
    requires NextTurn(p, partial) == NeedMore
    ensures Drain(p, Flatten(frames) + partial) == Split(frames, partial, false)
  {
    hide NextTurn, Drain, WellFormed;
    if frames == [] {
      assert Flatten(frames) + partial == partial;
      DrainTurn(p, partial);
    } else {
      var b := Flatten(frames) + partial;
      var tail := Flatten(frames[1..]) + partial;
      assert b == frames[0] + tail;
      TakesWellFormed(p, frames[0], tail);
      DrainTurn(p, b);
      assert b[..|frames[0]|] == frames[0] && b[|frames[0]|..] == tail;
      FramesSplitBack(p, frames[1..], partial);
    }
  }

  // ---------------------------------------------------------------------------
  // Termination
  // ---------------------------------------------------------------------------

  /** The BMP loop exactly as written: leave when a frame is incomplete, else cut it off the buffer. */
  function BmpTurn(b: seq<Byte>): Option<seq<Byte>> {
    if |b| < 6 || |b| < FrameLen(Bmp, b) then None else Some(b[FrameLen(Bmp, b)..])
  }

  /** The buffer after `n` turns; `None` when the loop has left by then. */
  function AfterTurns(b: seq<Byte>, n: nat): Option<seq<Byte>> {
    if n == 0 then Some(b)
    else match BmpTurn(b)
      case None => None
      case Some(next) => AfterTurns(next, n - 1)
  }

  ghost predicate BmpLoopEnds(b: seq<Byte>) {
    exists n: nat :: AfterTurns(b, n) == None
  }

  lemma {:induction false} StuckForEver(b: seq<Byte>, n: nat)
    requires NextTurn(Bmp, b) == Halt
    ensures AfterTurns(b, n) == Some(b)
  {
    if n > 0 {
      assert BmpTurn(b) == Some(b);
      StuckForEver(b, n - 1);
    }
  }

  lemma {:induction false} EndsInBoundedTurns(b: seq<Byte>)
    requires !Drain(Bmp, b).halted
    ensures AfterTurns(b, |b| + 1) == None
    decreases |b|
  {
    match NextTurn(Bmp, b) {
      case Take(n) =>
        EndsInBoundedTurns(b[n..]);
        MoreTurns(b[n..], |b[n..]| + 1, |b|);
      case NeedMore =>
    }
  }

  lemma {:induction false} MoreTurns(b: seq<Byte>, m: nat, n: nat)
    requires m <= n && AfterTurns(b, m) == None
    ensures AfterTurns(b, n) == None
  {
    if m > 0 && BmpTurn(b).Some? {
      MoreTurns(BmpTurn(b).value, m - 1, n - 1);
    }
  }

  /** The length field of a frame that starts at offset `o`. */
  function LenAt(b: seq<Byte>, o: nat): U32
    requires o + 6 <= |b|
  {
    FrameLen(Bmp, b[o..])
  }

  /** Offsets in the stream where frames start, one right behind the other, from the first byte on. */
  predicate FrameStarts(b: seq<Byte>, starts: seq<nat>) {
    && starts != [] && starts[0] == 0
    && forall i :: 0 <= i < |starts| - 1 ==>
         starts[i] + 6 <= |b| && starts[i + 1] == starts[i] + LenAt(b, starts[i]) <= |b|
  }

  /** A whole frame header with length zero stands where a frame starts. */
  ghost predicate ZeroLengthMet(b: seq<Byte>) {
    exists starts: seq<nat> :: FrameStarts(b, starts) && Last(starts) + 6 <= |b| && LenAt(b, Last(starts)) == 0
  }

  function Shift(starts: seq<nat>, n: int): seq<nat>
    requires forall i :: 0 <= i < |starts| ==> starts[i] + n >= 0
  {
    seq(|starts|, i requires 0 <= i < |starts| => starts[i] + n)
  }

  lemma {:induction false} HaltedMeetsZero(b: seq<Byte>) returns (starts: seq<nat>)
    requires Drain(Bmp, b).halted
    ensures FrameStarts(b, starts) && Last(starts) + 6 <= |b| && LenAt(b, Last(starts)) == 0
    decreases |b|
  {
    assert b[0..] == b;
    match NextTurn(Bmp, b) {
      case Halt => starts := [0];
      case Take(n) =>
        var tail := HaltedMeetsZero(b[n..]);
        starts := [0] + Shift(tail, n);
        StartsBehind(b, n, tail);
    }
  }

  lemma StartsBehind(b: seq<Byte>, n: nat, tail: seq<nat>)
    requires 6 <= |b| && n == LenAt(b, 0) <= |b| && FrameStarts(b[n..], tail)
    ensures FrameStarts(b, [0] + Shift(tail, n))
    ensures Last([0] + Shift(tail, n)) == Last(tail) + n
    ensures Last(tail) + n + 6 <= |b| ==> LenAt(b, Last(tail) + n) == LenAt(b[n..], Last(tail))
  {
    hide LenAt;
    var starts := [0] + Shift(tail, n);
    forall i | 0 <= i < |starts| - 1
      ensures starts[i] + 6 <= |b| && starts[i + 1] == starts[i] + LenAt(b, starts[i]) <= |b|
    {
      if i > 0 {
        LenBehind(b, n, starts[i]);
      }
    }
    if Last(tail) + n + 6 <= |b| {
      LenBehind(b, n, Last(tail) + n);
    }
  }

  lemma {:induction false} ZeroMetHalts(b: seq<Byte>, starts: seq<nat>)
    requires FrameStarts(b, starts) && Last(starts) + 6 <= |b| && LenAt(b, Last(starts)) == 0
    ensures Drain(Bmp, b).halted
    decreases |starts|
  {
    assert b[0..] == b;
    var n: nat := LenAt(b, 0);
    if |starts| > 1 && n > 0 {
      var tail := StartsWithin(b, starts);
      ZeroMetHalts(b[n..], tail);
    }
  }

  lemma StartsIncrease(b: seq<Byte>, starts: seq<nat>)
    requires FrameStarts(b, starts)
    ensures forall i, j :: 0 <= i <= j < |starts| ==> starts[i] <= starts[j]
  {
    forall i, j | 0 <= i <= j < |starts| ensures starts[i] <= starts[j] {
      StartsOrdered(b, starts, i, j);
    }
  }

  lemma {:induction false} StartsOrdered(b: seq<Byte>, starts: seq<nat>, i: nat, j: nat)
    requires FrameStarts(b, starts) && i <= j < |starts|
    ensures starts[i] <= starts[j]
    decreases j
  {
    if i < j {
      StartsOrdered(b, starts, i, j - 1);
      assert starts[j - 1 + 1] == starts[j - 1] + LenAt(b, starts[j - 1]);
    }
  }

  lemma LenBehind(b: seq<Byte>, n: nat, o: nat)
    requires n <= o && o + 6 <= |b|
    ensures LenAt(b[n..], o - n) == LenAt(b, o)
  {
    assert b[n..][o - n..] == b[o..];
  }

  lemma StartsWithin(b: seq<Byte>, starts: seq<nat>) returns (tail: seq<nat>)
    requires FrameStarts(b, starts) && |starts| > 1 && Last(starts) + 6 <= |b|
    ensures var n := LenAt(b, 0);
            && FrameStarts(b[n..], tail) && |tail| == |starts| - 1
            && Last(tail) + 6 <= |b[n..]| && LenAt(b[n..], Last(tail)) == LenAt(b, Last(starts))
  {
    hide LenAt;
    var n: int := LenAt(b, 0);
    StartsIncrease(b, starts);
    assert starts[0 + 1] == starts[0] + n;
    assert forall i :: 1 <= i < |starts| ==> starts[1] <= starts[i];
    tail := Shift(starts[1..], -n);
    forall i | 0 <= i < |tail| - 1
      ensures tail[i] + 6 <= |b[n..]| && tail[i + 1] == tail[i] + LenAt(b[n..], tail[i]) <= |b[n..]|
    {
      LenBehind(b, n, starts[i + 1]);
    }
    LenBehind(b, n, Last(starts));
  }

  /** The receiver's loop ends exactly when no frame of the stream starts with a zero length field; otherwise
      it spins on it. */
  lemma BmpEndsIff(b: seq<Byte>)
    ensures BmpLoopEnds(b) <==> !ZeroLengthMet(b)
  {
    if ZeroLengthMet(b) {
      var starts: seq<nat> :| FrameStarts(b, starts) && Last(starts) + 6 <= |b| && LenAt(b, Last(starts)) == 0;
      ZeroMetHalts(b, starts);
    }
    if Drain(Bmp, b).halted {
      var starts := HaltedMeetsZero(b);
    }
    if !Drain(Bmp, b).halted {
      EndsInBoundedTurns(b);
    } else {
      forall n: nat ensures AfterTurns(b, n) != None {
        HaltedNeverEnds(b, n);
      }
    }
  }

  lemma {:induction false} HaltedNeverEnds(b: seq<Byte>, n: nat)
    requires Drain(Bmp, b).halted
    ensures AfterTurns(b, n) != None
    decreases |b|, n
  {
    match NextTurn(Bmp, b) {
      case Halt => StuckForEver(b, n);
      case Take(k) =>
        if n > 0 {
          assert BmpTurn(b) == Some(b[k..]);
          HaltedNeverEnds(b[k..], n - 1);
        }
    }
  }

  /** The proxy's loop always ends: it treats a zero length as an incomplete frame. */
  lemma {:induction false} ProxyNeverHalts(b: seq<Byte>)
    ensures !Drain(Proxy, b).halted
    decreases |b|
  {
    match NextTurn(Proxy, b) {
      case Take(n) => ProxyNeverHalts(b[n..]);
      case NeedMore =>
    }
  }

  // ---------------------------------------------------------------------------
  // The proxy's upstream copy
  // ---------------------------------------------------------------------------

  /** A read of the proxy: the chunk, and whether writing it upstream succeeds. */
  datatype ProxyRead = ProxyRead(chunk: seq<Byte>, written: bool)

  class ProxyConnection {
    const tee: FrameReader
    var upstream: bool
    var sent: seq<Byte>

    constructor (connected: bool)
      ensures upstream == connected && sent == []
      ensures fresh(tee) && tee.protocol == Proxy && tee.View() == NOTHING
    {
      tee := new FrameReader(Proxy);
      upstream, sent := connected, [];
    }

    /** The last `n` bytes of the buffer go upstream as they came; a failed write drops the upstream
        and leaves the local copy alone. */
    method OnRead(read: ProxyRead)
      requires tee.protocol == Proxy
      modifies this, tee
      ensures tee.View() == Feed(Proxy, old(tee.View()), read.chunk)
      ensures upstream == (old(upstream) && read.written)
      ensures sent == if upstream then old(sent) + read.chunk else old(sent)
    {
      if upstream {
        var all := tee.buf + read.chunk;
        var bytes := all[|all| - |read.chunk|..];
        assert bytes == read.chunk;
        if read.written {
          sent := sent + bytes;
        } else {
          upstream := false;
        }
      }
      tee.OnRead(read.chunk);
    }

    /** Over any sequence of reads the upstream gets the stream up to the first failed write, and the
        local frames are those of the whole stream, whatever happens upstream. */
    method Relay(inputs: seq<ProxyRead>) returns (ghost cut: nat)
      requires tee.protocol == Proxy && tee.View() == NOTHING && sent == []
      modifies this, tee
      ensures cut <= |inputs| && sent == Flatten(Chunks(inputs[..cut]))
      ensures !old(upstream) ==> cut == 0
      ensures old(upstream) ==>
                (forall i :: 0 <= i < cut ==> inputs[i].written) && (cut < |inputs| ==> !inputs[cut].written)
      ensures tee.frames == Drain(Proxy, Flatten(Chunks(inputs))).frames
      ensures tee.buf == Drain(Proxy, Flatten(Chunks(inputs))).rest
    {
      hide Feed, FeedAll, Drain, NextTurn, Flatten, Chunks;
      cut := 0;
      assert Chunks(inputs[..0]) == [] by { ChunksStep(inputs, 0); }
      FlattenNothing<Byte>();
      FeedNothing(Proxy);
      for i := 0 to |inputs|
        invariant cut <= i && sent == Flatten(Chunks(inputs[..cut]))
        invariant upstream ==> old(upstream) && cut == i
        invariant !old(upstream) ==> cut == 0
        invariant old(upstream) ==> forall k :: 0 <= k < cut ==> inputs[k].written
        invariant old(upstream) && !upstream ==> cut < i && !inputs[cut].written
        invariant tee.View() == FeedAll(Proxy, Chunks(inputs[..i]))
      {
        ChunksStep(inputs, i);
        FeedAllSnoc(Proxy, Chunks(inputs[..i]), inputs[i].chunk);
        FlattenSnoc(Chunks(inputs[..i]), inputs[i].chunk);
        OnRead(inputs[i]);
        if upstream {
          cut := cut + 1;
        }
      }
      assert inputs[..|inputs|] == inputs;
      ChunkingIrrelevant(Proxy, Chunks(inputs));
      ProxyNeverHalts(Flatten(Chunks(inputs)));
    }
  }

  lemma ChunksStep(inputs: seq<ProxyRead>, i: nat)
    requires i <= |inputs|
    ensures Chunks(inputs[..0]) == []
    ensures i < |inputs| ==>
              Chunks(inputs[..i + 1]) == Chunks(inputs[..i]) + [inputs[i].chunk]
  {
    assert i < |inputs| ==> Chunks(inputs[..i + 1]) == Chunks(inputs[..i]) + [inputs[i].chunk];
  }

  lemma FeedNothing(p: Protocol)
    ensures FeedAll(p, []) == NOTHING
  {
  }

  lemma FeedAllSnoc(p: Protocol, chunks: seq<seq<Byte>>, last: seq<Byte>)
    ensures FeedAll(p, chunks + [last]) == Feed(p, FeedAll(p, chunks), last)
  {
    hide Feed;
    assert Front(chunks + [last]) == chunks;
  }

  function Chunks(inputs: seq<ProxyRead>): seq<seq<Byte>> {
    seq(|inputs|, i requires 0 <= i < |inputs| => inputs[i].chunk)
  }
}

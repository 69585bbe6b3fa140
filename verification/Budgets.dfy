/** The per-speaker rate limiter (`TokenBucket` in `crates/rbmp-server/src/auth.rs`), with its floating
    point numbers taken as exact reals. Times are nanoseconds. */
module RateLimit {
  import opened Common

  const MILLISECOND: int := 1_000_000

  /** `refillRate` is in tokens per millisecond. */
  datatype Bucket = Bucket(tokens: real, capacity: real, refillRate: real, lastRefill: int) {
    ghost predicate Valid() {
      0.0 <= tokens <= capacity && refillRate >= 0.0
    }
  }

  function NewBucket(msgsPerSec: U32, now: int): (b: Bucket)
    ensures b.Valid()
  {
    Bucket(msgsPerSec as real, msgsPerSec as real, msgsPerSec as real / 1000.0, now)
  }

  /** Whole milliseconds between two instants, zero when the second is earlier. */
  function WholeMillis(from: int, to: int): nat {
    if to < from then 0 else (to - from) / MILLISECOND
  }

  function RealMin(a: real, b: real): real {
    if a <= b then a else b
  }

  /** Tokens refilled in a number of milliseconds. */
  function Earned(millis: nat, rate: real): real {
    millis as real * rate
  }

  function Refill(b: Bucket, now: int): Bucket {
    b.(tokens := RealMin(b.tokens + Earned(WholeMillis(b.lastRefill, now), b.refillRate), b.capacity),
       lastRefill := now)
  }

  /** A capacity of zero means no limit. */
  function Allow(b: Bucket, now: int): (Bucket, bool) {
    if b.capacity == 0.0 then (b, true)
    else
      var r := Refill(b, now);
      if r.tokens >= 1.0 then (r.(tokens := r.tokens - 1.0), true) else (r, false)
  }

  class TokenBucket {
    var bucket: Bucket

    constructor (msgsPerSec: U32, now: int)
      ensures bucket == NewBucket(msgsPerSec, now)
    {
      bucket := NewBucket(msgsPerSec, now);
    }

    method DoRefill(now: int)
      modifies this
      ensures bucket == Refill(old(bucket), now)
    {
      var elapsed := WholeMillis(bucket.lastRefill, now) as real;
      var filled := bucket.tokens + elapsed * bucket.refillRate;
      bucket := bucket.(tokens := if filled <= bucket.capacity then filled else bucket.capacity);
      bucket := bucket.(lastRefill := now);
    }

    method AllowMessage(now: int) returns (allowed: bool)
      modifies this
      ensures (bucket, allowed) == Allow(old(bucket), now)
    {
      if bucket.capacity == 0.0 {
        return true;
      }
      DoRefill(now);
      if bucket.tokens >= 1.0 {
        bucket := bucket.(tokens := bucket.tokens - 1.0);
        return true;
      }
      return false;
    }
  }

  /** A call at each of the given times: the final bucket, and how many calls were allowed. */
  function Calls(b: Bucket, times: seq<int>): (Bucket, nat) {
    if times == [] then (b, 0)
    else
      var (mid, n) := Calls(b, Front(times));
      var (after, ok) := Allow(mid, Last(times));
      (after, if ok then n + 1 else n)
  }

  lemma {:induction false} CallsValid(b: Bucket, times: seq<int>)
    requires b.Valid()
    ensures Calls(b, times).0.Valid()
    ensures Calls(b, times).0.capacity == b.capacity && Calls(b, times).0.refillRate == b.refillRate
    ensures times != [] && b.capacity != 0.0 ==> Calls(b, times).0.lastRefill == Last(times)
  {
    if times != [] {
      CallsValid(b, Front(times));
      RefillValid(Calls(b, Front(times)).0, Last(times));
    }
  }

  lemma RefillValid(b: Bucket, now: int)
    requires b.Valid()
    ensures Refill(b, now).Valid()
    ensures Refill(b, now).tokens <= b.tokens + Earned(WholeMillis(b.lastRefill, now), b.refillRate)
  {
  }

  lemma EarnedAdds(m: nat, n: nat, rate: real)
    ensures Earned(m + n, rate) == Earned(m, rate) + Earned(n, rate) && Earned(0, rate) == 0.0
  {
  }

  lemma AllowPays(b: Bucket, now: int)
    requires b.Valid() && b.capacity != 0.0
    ensures var (after, ok) := Allow(b, now);
            && after.tokens + (if ok then 1.0 else 0.0) <= b.capacity
            && after.tokens + (if ok then 1.0 else 0.0)
               <= b.tokens + Earned(WholeMillis(b.lastRefill, now), b.refillRate)
  {
  }

  /** The whole milliseconds between consecutive calls. */
  function GapSum(times: seq<int>): nat {
    if |times| < 2 then 0 else GapSum(Front(times)) + WholeMillis(Last(Front(times)), Last(times))
  }

  /** Over any run that starts in any valid bucket, the messages let through and the tokens left are paid
      for by one full bucket and the refill of the gaps between the calls. */
  lemma {:induction false} RunBound(b: Bucket, times: seq<int>)
    requires b.Valid() && b.capacity != 0.0 && times != []
    ensures Calls(b, times).1 as real + Calls(b, times).0.tokens
            <= b.capacity + Earned(GapSum(times), b.refillRate)
  {
    hide Earned, Allow, WholeMillis;
    var front := Front(times);
    CallsValid(b, front);
    AllowPays(Calls(b, front).0, Last(times));
    if |times| > 1 {
      RunBound(b, front);
      EarnedAdds(GapSum(front), WholeMillis(Last(front), Last(times)), b.refillRate);
    } else {
      assert front == [];
      EarnedAdds(0, 0, b.refillRate);
    }
  }

  lemma {:induction false} CallsSplit(b: Bucket, first: seq<int>, rest: seq<int>)
    ensures Calls(b, first + rest).0 == Calls(Calls(b, first).0, rest).0
    ensures Calls(b, first + rest).1 == Calls(b, first).1 + Calls(Calls(b, first).0, rest).1
  {
    if rest == [] {
      assert first + rest == first;
    } else {
      assert Front(first + rest) == first + Front(rest) && Last(first + rest) == Last(rest);
      CallsSplit(b, first, Front(rest));
    }
  }

  ghost predicate NonDecreasing(times: seq<int>) {
    forall i, j :: 0 <= i <= j < |times| ==> times[i] <= times[j]
  }

  /** Truncation only loses time. */
  lemma {:induction false} GapSumAtMostElapsed(times: seq<int>)
    requires NonDecreasing(times) && times != []
    ensures GapSum(times) * MILLISECOND <= Last(times) - times[0]
  {
    if |times| > 1 {
      var front := Front(times);
      forall i, j | 0 <= i <= j < |front| ensures front[i] <= front[j] {
        assert front[i] == times[i] && front[j] == times[j];
      }
      GapSumAtMostElapsed(front);
      assert Last(front) == times[|times| - 2] <= Last(times) == times[|times| - 1];
    }
  }

  /** The messages allowed in the window `[i, j)` of the run. */
  function AllowedIn(b: Bucket, times: seq<int>, i: nat, j: nat): int
    requires i <= j <= |times|
  {
    Calls(b, times[..j]).1 - Calls(b, times[..i]).1
  }

  /** In every window of every run, at most a full bucket plus the refill of the whole-millisecond gaps
      inside the window is allowed. */
  lemma WindowBound(b: Bucket, times: seq<int>, i: nat, j: nat)
    requires b.Valid() && b.capacity != 0.0 && i < j <= |times|
    ensures AllowedIn(b, times, i, j) as real <= b.capacity + Earned(GapSum(times[i..j]), b.refillRate)
  {
    hide Calls, GapSum, Earned;
    assert times[..j] == times[..i] + times[i..j];
    CallsSplit(b, times[..i], times[i..j]);
    CallsValid(b, times[..i]);
    RunBound(Calls(b, times[..i]).0, times[i..j]);
    CallsValid(Calls(b, times[..i]).0, times[i..j]);
  }

  /** Hence at most a full bucket plus the rate times the elapsed time: `msgs_per_sec` messages at once
      and `msgs_per_sec` more for every second of the window. */
  lemma RateBound(msgsPerSec: U32, start: int, times: seq<int>, i: nat, j: nat)
    requires msgsPerSec > 0 && i < j <= |times| && NonDecreasing(times)
    ensures var seconds := (times[j - 1] - times[i]) as real / 1_000_000_000.0;
            AllowedIn(NewBucket(msgsPerSec, start), times, i, j) as real
            <= msgsPerSec as real + msgsPerSec as real * seconds
  {
    hide Calls, GapSum;
    var b := NewBucket(msgsPerSec, start);
    var window := times[i..j];
    forall k, l | 0 <= k <= l < |window| ensures window[k] <= window[l] {
      assert window[k] == times[i + k] && window[l] == times[i + l];
    }
    WindowBound(b, times, i, j);
    GapSumAtMostElapsed(window);
    var gaps := GapSum(window);
    var elapsed := (times[j - 1] - times[i]) as real / MILLISECOND as real;
    MillisAtMost(gaps, times[j - 1] - times[i]);
    ScaleMonotone(gaps as real, elapsed, b.refillRate);
    PerSecond(msgsPerSec as real, times[j - 1] - times[i]);
  }

  /** A rate per second over nanoseconds is a thousandth of it over milliseconds. */
  lemma PerSecond(perSecond: real, nanos: int)
    ensures perSecond / 1000.0 * (nanos as real / MILLISECOND as real) == perSecond * (nanos as real / 1_000_000_000.0)
  {
  }

  /** A limit of zero messages means no limit. */
  lemma {:induction false} ZeroIsUnlimited(start: int, times: seq<int>)
    ensures Calls(NewBucket(0, start), times).1 == |times|
    ensures Calls(NewBucket(0, start), times).0 == NewBucket(0, start)
  {
    if times != [] {
      ZeroIsUnlimited(start, Front(times));
    }
  }

  /** Otherwise a call lets its message through if and only if a whole token is there, counting the refill of the
      whole milliseconds since the last call. */
  lemma AllowedIff(msgsPerSec: U32, start: int, times: seq<int>, now: int)
    requires msgsPerSec > 0
    ensures var e := Calls(NewBucket(msgsPerSec, start), times).0;
            var millis := if now < e.lastRefill then 0 else (now - e.lastRefill) / 1_000_000;
            Allow(e, now).1 <==> e.tokens + millis as real * (msgsPerSec as real / 1000.0) >= 1.0
  {
    hide Calls, Allow;
    CallsValid(NewBucket(msgsPerSec, start), times);
    AllowIff(Calls(NewBucket(msgsPerSec, start), times).0, now);
  }

  lemma AllowIff(b: Bucket, now: int)
    requires b.Valid() && b.capacity >= 1.0
    ensures var millis := if now < b.lastRefill then 0 else (now - b.lastRefill) / 1_000_000;
            Allow(b, now).1 <==> b.tokens + millis as real * b.refillRate >= 1.0
  {
  }

  /** The other direction: messages are refused only for lack of tokens, so a bucket with `n` tokens lets
      the next `n` messages through, whenever they come. */
  lemma {:induction false} BurstAdmitted(b: Bucket, times: seq<int>)
    requires b.Valid() && b.capacity != 0.0 && |times| as real <= b.tokens
    ensures Calls(b, times).1 == |times|
    ensures Calls(b, times).0.tokens >= b.tokens - |times| as real
  {
    hide Earned;
    if times != [] {
      BurstAdmitted(b, Front(times));
      CallsValid(b, Front(times));
      RefillKeepsTokens(Calls(b, Front(times)).0, Last(times));
    }
  }

  /** A new bucket is full: it lets `msgsPerSec` messages through at once. */
  lemma FreshBurst(msgsPerSec: U32, start: int, times: seq<int>)
    requires msgsPerSec > 0 && |times| <= msgsPerSec
    ensures Calls(NewBucket(msgsPerSec, start), times).1 == |times|
  {
    hide Calls;
    BurstAdmitted(NewBucket(msgsPerSec, start), times);
  }

  lemma RefillKeepsTokens(b: Bucket, now: int)
    requires b.Valid()
    ensures Refill(b, now).tokens >= b.tokens
  {
    assert WholeMillis(b.lastRefill, now) as real * b.refillRate >= 0.0;
  }

  /** One idle second fills the bucket, whatever was left in it. */
  lemma IdleSecondFills(msgsPerSec: U32, start: int, times: seq<int>, now: int)
    requires msgsPerSec > 0
    requires now >= Calls(NewBucket(msgsPerSec, start), times).0.lastRefill + 1_000_000_000
    ensures Refill(Calls(NewBucket(msgsPerSec, start), times).0, now).tokens == msgsPerSec as real
  {
    hide Calls;
    var b := NewBucket(msgsPerSec, start);
    CallsValid(b, times);
    var e := Calls(b, times).0;
    var gap := WholeMillis(e.lastRefill, now);
    assert gap >= 1000;
    ScaleMonotone(1000.0, gap as real, e.refillRate);
  }

  lemma MillisAtMost(millis: nat, nanos: int)
    requires millis * MILLISECOND <= nanos
    ensures millis as real <= nanos as real / MILLISECOND as real
  {
  }

  lemma ScaleMonotone(x: real, y: real, k: real)
    requires x <= y && k >= 0.0
    ensures x * k <= k * y
  {
  }
}

/** The daily token budget (`consume_nl_tokens` in `crates/rbmp-server/src/mcp_server.rs`): two atomics,
    and threads that interleave between them. */
module NlBudget {
  import opened Common

  const DAILY_TOKENS: nat := 500_000

  // ---------------------------------------------------------------------------
  // Threads over the two atomics
  // ---------------------------------------------------------------------------

  /** Where a thread is inside the call. */
  datatype Pc =
    | Idle
    | Started(nowDay: nat, estimated: nat)
    | Resetting(nowDay: nat, estimated: nat)
    | Stamping(nowDay: nat, estimated: nat)
    | Consuming(nowDay: nat, estimated: nat)

  datatype Grant = Grant(day: nat, tokens: nat)

  /** `grants` logs every successful call; `since` is its length at the last store of a full budget. */
  datatype World = World(
    budget: nat, day: nat, threads: map<nat, Pc>, grants: seq<Grant>, since: nat, resets: nat)

  const INITIAL := World(DAILY_TOKENS, 0, map[], [], 0, 0)

  datatype Step =
    | Begin(tid: nat, nowDay: nat, estimated: nat)
    | LoadDay(tid: nat)
    | StoreBudget(tid: nat)
    | StoreDay(tid: nat)
    | FetchUpdate(tid: nat)

  function PcOf(w: World, tid: nat): Pc {
    if tid in w.threads then w.threads[tid] else Idle
  }

  function Goto(w: World, tid: nat, pc: Pc): World {
    w.(threads := w.threads[tid := pc])
  }

  /** One atomic action of one thread; actions that do not fit where the thread is do nothing. */
  function Apply(w: World, step: Step): World {
    var pc := PcOf(w, step.tid);
    match step
    case Begin(tid, nowDay, estimated) =>
      if pc.Idle? then Goto(w, tid, Started(nowDay, estimated)) else w
    case LoadDay(tid) =>
      if !pc.Started? then w
      else if pc.nowDay > w.day then Goto(w, tid, Resetting(pc.nowDay, pc.estimated))
      else Goto(w, tid, Consuming(pc.nowDay, pc.estimated))
    case StoreBudget(tid) =>
      if !pc.Resetting? then w
      else Goto(w, tid, Stamping(pc.nowDay, pc.estimated))
           .(budget := DAILY_TOKENS, since := |w.grants|, resets := w.resets + 1)
    case StoreDay(tid) =>
      if !pc.Stamping? then w
      else Goto(w, tid, Consuming(pc.nowDay, pc.estimated)).(day := pc.nowDay)
    case FetchUpdate(tid) =>
      if !pc.Consuming? then w
      else if w.budget < pc.estimated then Goto(w, tid, Idle)
      else Goto(w, tid, Idle).(budget := w.budget - pc.estimated,
                               grants := w.grants + [Grant(pc.nowDay, pc.estimated)])
  }

  function Run(steps: seq<Step>): World {
    if steps == [] then INITIAL else Apply(Run(Front(steps)), Last(steps))
  }

  function Sum(grants: seq<Grant>): nat {
    if grants == [] then 0 else Sum(Front(grants)) + Last(grants).tokens
  }

  /** Conservation in every interleaving of any number of threads: what is left and what was granted
      since the last reset store add up to the daily budget. */
  lemma {:induction false} Conservation(steps: seq<Step>)
    ensures var w := Run(steps);
            w.since <= |w.grants| && w.budget + Sum(w.grants[w.since..]) == DAILY_TOKENS
  {
    if steps != [] {
      Conservation(Front(steps));
      var w, w' := Run(Front(steps)), Run(steps);
      if w'.since != w.since {
        assert w'.grants[w'.since..] == [];
      } else if w'.grants != w.grants {
        assert Front(w'.grants[w.since..]) == w.grants[w.since..];
        assert Last(w'.grants[w.since..]) == Last(w'.grants);
      } else if w' != w && Last(steps).StoreBudget? && PcOf(w, Last(steps).tid).Resetting? {
        assert w'.grants[w'.since..] == [];
      }
    }
  }

  /** So a whole run grants at most one budget more than it has reset stores. */
  lemma {:induction false} GrantsAtMostResets(steps: seq<Step>)
    ensures var w := Run(steps); Sum(w.grants) + w.budget <= DAILY_TOKENS * (w.resets + 1)
  {
    if steps != [] {
      GrantsAtMostResets(Front(steps));
      var w, w' := Run(Front(steps)), Run(steps);
      if w'.grants != w.grants {
        assert Front(w'.grants) == w.grants;
      }
    }
  }

  function GrantedOn(grants: seq<Grant>, day: nat): nat {
    if grants == [] then 0
    else GrantedOn(Front(grants), day) + if Last(grants).day == day then Last(grants).tokens else 0
  }

  /** Threads can overdraw a day: two that both see the old day both reset, and twice the budget is
      granted on day 1. */
  lemma TwoResetsOneDay() returns (steps: seq<Step>)
    ensures GrantedOn(Run(steps).grants, 1) == 2 * DAILY_TOKENS
  {
    var opening := [Begin(0, 1, 500_000), Begin(1, 1, 500_000), LoadDay(0), LoadDay(1)];
    BothSeeTheOldDay(opening);
    var first := opening + [StoreBudget(0), StoreDay(0), FetchUpdate(0)];
    ResetAndConsume(opening, 0, 1);
    steps := first + [StoreBudget(1), StoreDay(1), FetchUpdate(1)];
    ResetAndConsume(first, 1, 0);
    var grant := Grant(1, 500_000);
    assert Run(opening).grants + [grant] == [grant];
    assert GrantedOn([grant], 1) == 500_000 by { GrantedSnoc([], grant, 1); }
    GrantedSnoc([grant], grant, 1);
  }

  lemma BothSeeTheOldDay(opening: seq<Step>)
    requires opening == [Begin(0, 1, 500_000), Begin(1, 1, 500_000), LoadDay(0), LoadDay(1)]
    ensures PcOf(Run(opening), 0) == PcOf(Run(opening), 1) == Resetting(1, 500_000)
    ensures Run(opening).grants == []
  {
    hide Run;
    RunPrefix(opening, 0);
    RunPrefix(opening, 1);
    RunPrefix(opening, 2);
    RunPrefix(opening, 3);
    assert opening[..4] == opening;
  }

  /** A thread that has decided to reset gets a full budget and takes all of it. */
  lemma ResetAndConsume(before: seq<Step>, tid: nat, other: nat)
    requires PcOf(Run(before), tid) == Resetting(1, 500_000) && tid != other
    ensures var after := Run(before + [StoreBudget(tid), StoreDay(tid), FetchUpdate(tid)]);
            && PcOf(after, other) == PcOf(Run(before), other)
            && after.grants == Run(before).grants + [Grant(1, 500_000)]
  {
    var steps := before + [StoreBudget(tid), StoreDay(tid), FetchUpdate(tid)];
    var n := |before|;
    assert Front(steps) == steps[..n + 2] && Front(steps[..n + 2]) == steps[..n + 1];
    assert Front(steps[..n + 1]) == before;
    var w1 := Apply(Run(before), StoreBudget(tid));
    assert Run(steps[..n + 1]) == w1;
    var w2 := Apply(w1, StoreDay(tid));
    assert Run(steps[..n + 2]) == w2;
    assert Run(steps) == Apply(w2, FetchUpdate(tid));
  }

  lemma GrantedSnoc(grants: seq<Grant>, g: Grant, day: nat)
    ensures GrantedOn(grants + [g], day) == GrantedOn(grants, day) + if g.day == day then g.tokens else 0
  {
  }

  lemma RunPrefix(steps: seq<Step>, k: nat)
    requires k < |steps|
    ensures Run(steps[..0]) == INITIAL && Run(steps[..k + 1]) == Apply(Run(steps[..k]), steps[k])
  {
    assert Front(steps[..k + 1]) == steps[..k];
  }

  /** What is left of the budget fits into what day `d` may still be granted. */
  ghost predicate Headroom(w: World, d: nat) {
    GrantedOn(w.grants, d) + w.budget <= DAILY_TOKENS
  }

  /** The step stores a full budget after a token was granted on day `d`. */
  ghost predicate LateReset(w: World, step: Step, d: nat) {
    step.StoreBudget? && PcOf(w, step.tid).Resetting? && GrantedOn(w.grants, d) > 0
  }

  /** A step keeps the headroom of a day if and only if it is no late reset. */
  lemma StepKeepsHeadroomIff(w: World, step: Step, d: nat)
    requires Headroom(w, d)
    ensures Headroom(Apply(w, step), d) <==> !LateReset(w, step, d)
  {
    hide GrantedOn;
    if step.FetchUpdate? && PcOf(w, step.tid).Consuming? {
      GrantedSnoc(w.grants, Grant(PcOf(w, step.tid).nowDay, PcOf(w, step.tid).estimated), d);
    }
  }

  ghost predicate NoLateReset(steps: seq<Step>, d: nat) {
    forall k :: 0 <= k < |steps| ==> !LateReset(Run(steps[..k]), steps[k], d)
  }

  ghost predicate AlwaysHeadroom(steps: seq<Step>, d: nat) {
    forall k :: 0 <= k <= |steps| ==> Headroom(Run(steps[..k]), d)
  }

  /** An interleaving keeps the headroom of a day throughout if and only if it has no late reset. */
  lemma {:induction false} AlwaysHeadroomIff(steps: seq<Step>, d: nat)
    ensures AlwaysHeadroom(steps, d) <==> NoLateReset(steps, d)
  {
    hide Headroom, LateReset;
    if AlwaysHeadroom(steps, d) {
      forall k | 0 <= k < |steps| ensures !LateReset(Run(steps[..k]), steps[k], d) {
        RunPrefix(steps, k);
        StepKeepsHeadroomIff(Run(steps[..k]), steps[k], d);
      }
    }
    if NoLateReset(steps, d) {
      forall k | 0 <= k <= |steps| ensures Headroom(Run(steps[..k]), d) {
        HeadroomAt(steps, k, d);
      }
    }
  }

  lemma {:induction false} HeadroomAt(steps: seq<Step>, k: nat, d: nat)
    requires k <= |steps| && NoLateReset(steps, d)
    ensures Headroom(Run(steps[..k]), d)
  {
    if k > 0 {
      HeadroomAt(steps, k - 1, d);
      RunPrefix(steps, k - 1);
      StepKeepsHeadroomIff(Run(steps[..k - 1]), steps[k - 1], d);
    }
  }

  // --- The limit of one day, over runs of any number of days ---

  /** The step grants at least one token on day `d`. */
  ghost predicate Grants(w: World, step: Step, d: nat) {
    step.FetchUpdate? && PcOf(w, step.tid).Consuming? && PcOf(w, step.tid).nowDay == d
    && 0 < PcOf(w, step.tid).estimated <= w.budget
  }

  /** The step stores a full budget. */
  ghost predicate Resets(w: World, step: Step) {
    step.StoreBudget? && PcOf(w, step.tid).Resetting?
  }

  ghost predicate GrantsAt(steps: seq<Step>, k: nat, d: nat) {
    k < |steps| && Grants(Run(steps[..k]), steps[k], d)
  }

  ghost predicate ResetsAt(steps: seq<Step>, k: nat) {
    k < |steps| && Resets(Run(steps[..k]), steps[k])
  }

  /** A reset store lies between two grants of day `d`. */
  ghost predicate SplitDay(steps: seq<Step>, d: nat) {
    exists i: nat, j: nat, k: nat :: i < j < k && GrantsAt(steps, i, d) && ResetsAt(steps, j) && GrantsAt(steps, k, d)
  }

  lemma {:induction false} GrantedSplit(grants: seq<Grant>, n: nat, d: nat)
    requires n <= |grants|
    ensures GrantedOn(grants, d) == GrantedOn(grants[..n], d) + GrantedOn(grants[n..], d)
  {
    if n == |grants| {
      assert grants[..n] == grants;
    } else {
      GrantedSplit(Front(grants), n, d);
      assert Front(grants)[..n] == grants[..n] && Front(grants)[n..] == Front(grants[n..]);
    }
  }

  lemma {:induction false} GrantedAtMostSum(grants: seq<Grant>, d: nat)
    ensures GrantedOn(grants, d) <= Sum(grants)
  {
    if grants != [] {
      GrantedAtMostSum(Front(grants), d);
    }
  }

  /** Since the last reset store no day is granted more than the budget. */
  lemma SinceResetWithinBudget(steps: seq<Step>, d: nat)
    ensures var w := Run(steps); w.since <= |w.grants| && GrantedOn(w.grants[w.since..], d) <= DAILY_TOKENS
  {
    Conservation(steps);
    var w := Run(steps);
    GrantedAtMostSum(w.grants[w.since..], d);
  }

  /** How one step changes what a day was granted, altogether and before the last reset store. */
  lemma GrantedStep(w: World, step: Step, d: nat)
    requires w.since <= |w.grants|
    ensures var w' := Apply(w, step);
            && w'.since <= |w'.grants|
            && (GrantedOn(w'.grants, d) != GrantedOn(w.grants, d) ==> Grants(w, step, d))
            && GrantedOn(w'.grants[..w'.since], d)
               == if Resets(w, step) then GrantedOn(w.grants, d) else GrantedOn(w.grants[..w.since], d)
  {
    hide GrantedOn;
    var w' := Apply(w, step);
    if step.FetchUpdate? && PcOf(w, step.tid).Consuming? && PcOf(w, step.tid).estimated <= w.budget {
      GrantedSnoc(w.grants, Grant(PcOf(w, step.tid).nowDay, PcOf(w, step.tid).estimated), d);
      assert w'.grants[..w.since] == w.grants[..w.since];
    } else if Resets(w, step) {
      assert w'.grants[..w'.since] == w.grants;
    }
  }

  /** After `n` steps: what the day was granted comes from grants, what it was granted before the last reset
      store from grants with a reset store behind them, and all of it fits the budget. */
  ghost predicate Accounted(steps: seq<Step>, n: nat, d: nat)
    requires n <= |steps|
  {
    var w := Run(steps[..n]);
    && w.since <= |w.grants|
    && (GrantedOn(w.grants, d) > 0 ==> exists i: nat :: i < n && GrantsAt(steps, i, d))
    && (GrantedOn(w.grants[..w.since], d) > 0 ==>
          exists i: nat, j: nat :: i < j < n && GrantsAt(steps, i, d) && ResetsAt(steps, j))
    && GrantedOn(w.grants, d) <= DAILY_TOKENS
  }

  lemma {:induction false} UnsplitDayAccounted(steps: seq<Step>, n: nat, d: nat)
    requires n <= |steps| && !SplitDay(steps, d)
    ensures Accounted(steps, n, d)
  {
    hide GrantedOn, Apply, Run;
    if n == 0 {
      NothingGranted(d);
    } else {
      UnsplitDayAccounted(steps, n - 1, d);
      AccountedStep(steps, n - 1, d);
    }
  }

  lemma NothingGranted(d: nat)
    ensures Run([]) == INITIAL && GrantedOn([], d) == 0
  {
  }

  lemma AccountedStep(steps: seq<Step>, n: nat, d: nat)
    requires n < |steps| && !SplitDay(steps, d) && Accounted(steps, n, d)
    ensures Accounted(steps, n + 1, d)
  {
    hide GrantedOn, Apply, Run, Grants, Resets;
    var w, w' := Run(steps[..n]), Run(steps[..n + 1]);
    RunPrefix(steps, n);
    GrantedStep(w, steps[n], d);
    assert GrantedOn(w'.grants, d) != GrantedOn(w.grants, d) ==> GrantsAt(steps, n, d);
    assert Resets(w, steps[n]) ==> ResetsAt(steps, n);
    if GrantsAt(steps, n, d) {
      assert GrantedOn(w.grants[..w.since], d) == 0;
      GrantsDoNotReset(w, steps[n], d);
      GrantedSplit(w'.grants, w'.since, d);
      SinceResetWithinBudget(steps[..n + 1], d);
    }
  }

  lemma GrantsDoNotReset(w: World, step: Step, d: nat)
    requires Grants(w, step, d)
    ensures !Resets(w, step)
  {
  }

  /** Every interleaving of any number of threads, over any number of days and with any clock, grants at most
      the budget on a day unless a reset store lies between two grants of that day. */
  lemma DailyLimitOfThreads(steps: seq<Step>, d: nat)
    requires !SplitDay(steps, d)
    ensures GrantedOn(Run(steps).grants, d) <= DAILY_TOKENS
  {
    UnsplitDayAccounted(steps, |steps|, d);
    assert steps[..|steps|] == steps;
  }

  // ---------------------------------------------------------------------------
  // One call at a time
  // ---------------------------------------------------------------------------

  datatype Call = Call(nowDay: nat, estimated: nat)

  /** The two atomics, and the log. */
  datatype Budget = Budget(left: nat, day: nat, grants: seq<Grant>)

  const FULL := Budget(DAILY_TOKENS, 0, [])

  function Consume(b: Budget, c: Call): Budget {
    var r := if c.nowDay > b.day then b.(left := DAILY_TOKENS, day := c.nowDay) else b;
    if r.left < c.estimated then r
    else r.(left := r.left - c.estimated, grants := r.grants + [Grant(c.nowDay, c.estimated)])
  }

  class TokenBudget {
    var left: nat
    var day: nat
    ghost var grants: seq<Grant>

    ghost function View(): Budget
      reads this
    {
      Budget(left, day, grants)
    }

    constructor ()
      ensures View() == FULL
    {
      left, day, grants := DAILY_TOKENS, 0, [];
    }

    method ConsumeTokens(nowDay: nat, estimated: nat) returns (ok: bool)
      modifies this
      ensures View() == Consume(old(View()), Call(nowDay, estimated))
      ensures ok <==> |grants| == |old(grants)| + 1
    {
      var lastDay := day;
      if nowDay > lastDay {
        left := DAILY_TOKENS;
        day := nowDay;
      }
      ok := left >= estimated;
      if ok {
        left := left - estimated;
        grants := grants + [Grant(nowDay, estimated)];
      }
    }
  }

  /** A call that no other thread interrupts is one `Consume`. */
  lemma UninterruptedCall(w: World, tid: nat, c: Call)
    requires PcOf(w, tid) == Idle
    ensures var w1 := Apply(w, Begin(tid, c.nowDay, c.estimated));
            var w5 := Apply(Apply(Apply(Apply(w1, LoadDay(tid)), StoreBudget(tid)), StoreDay(tid)), FetchUpdate(tid));
            PcOf(w5, tid) == Idle
            && Budget(w5.budget, w5.day, w5.grants) == Consume(Budget(w.budget, w.day, w.grants), c)
  {
  }

  /** The atomic actions of one call by thread `tid`. */
  function Actions(tid: nat, c: Call): seq<Step> {
    [Begin(tid, c.nowDay, c.estimated), LoadDay(tid), StoreBudget(tid), StoreDay(tid), FetchUpdate(tid)]
  }

  lemma RunActions(before: seq<Step>, tid: nat, c: Call)
    requires PcOf(Run(before), tid) == Idle
    ensures var w, w' := Run(before), Run(before + Actions(tid, c));
            && w'.threads == w.threads[tid := Idle]
            && Budget(w'.budget, w'.day, w'.grants) == Consume(Budget(w.budget, w.day, w.grants), c)
  {
    var steps, n := before + Actions(tid, c), |before|;
    RunFive(steps, n);
    assert steps[..n] == before && steps[..n + 5] == steps;
    UninterruptedCall(Run(before), tid, c);
    CallThreads(Run(before), tid, c);
  }

  lemma RunFive(steps: seq<Step>, n: nat)
    requires n + 5 <= |steps|
    ensures Run(steps[..n + 5])
            == Apply(Apply(Apply(Apply(Apply(Run(steps[..n]), steps[n]), steps[n + 1]), steps[n + 2]),
                           steps[n + 3]), steps[n + 4])
  {
    hide Apply, Run;
    RunPrefix(steps, n);
    RunPrefix(steps, n + 1);
    RunPrefix(steps, n + 2);
    RunPrefix(steps, n + 3);
    RunPrefix(steps, n + 4);
  }

  lemma CallThreads(w: World, tid: nat, c: Call)
    requires PcOf(w, tid) == Idle
    ensures var w1 := Apply(w, Begin(tid, c.nowDay, c.estimated));
            var w5 := Apply(Apply(Apply(Apply(w1, LoadDay(tid)), StoreBudget(tid)), StoreDay(tid)), FetchUpdate(tid));
            w5.threads == w.threads[tid := Idle]
  {
  }

  /** What headroom means: while nothing is left to reset for day `d`, one more undisturbed call on that day
      can overdraw it if and only if there is no headroom. */
  lemma OverdrawnByOneCallIff(steps: seq<Step>, d: nat, tid: nat)
    requires PcOf(Run(steps), tid) == Idle && Run(steps).day >= d
    ensures (exists c: Call :: c.nowDay == d && GrantedOn(Run(steps + Actions(tid, c)).grants, d) > DAILY_TOKENS)
            <==> !Headroom(Run(steps), d)
  {
    hide GrantedOn, Run, Apply, Actions;
    var w := Run(steps);
    forall c: Call | c.nowDay == d
      ensures GrantedOn(Run(steps + Actions(tid, c)).grants, d)
              == GrantedOn(w.grants, d) + if c.estimated <= w.budget then c.estimated else 0
    {
      RunActions(steps, tid, c);
      GrantedSnoc(w.grants, Grant(d, c.estimated), d);
    }
    if !Headroom(w, d) {
      var c := Call(d, w.budget);
      assert GrantedOn(Run(steps + Actions(tid, c)).grants, d) > DAILY_TOKENS;
    }
  }

  /** The condition is needed: after a reset store behind a grant of a day, one more call on that day overdraws
      it. */
  lemma LateResetOverdraws(steps: seq<Step>, late: Step, d: nat, tid: nat)
    requires LateReset(Run(steps), late, d) && PcOf(Run(steps + [late]), tid) == Idle
    ensures GrantedOn(Run(steps + [late] + Actions(tid, Call(d, DAILY_TOKENS))).grants, d) > DAILY_TOKENS
  {
    hide GrantedOn;
    var before := steps + [late];
    assert Front(before) == steps && Last(before) == late;
    var w := Run(before);
    assert w.budget == DAILY_TOKENS && w.grants == Run(steps).grants;
    RunActions(before, tid, Call(d, DAILY_TOKENS));
    GrantedSnoc(w.grants, Grant(d, DAILY_TOKENS), d);
  }

  function Serve(calls: seq<Call>): Budget {
    if calls == [] then FULL else Consume(Serve(Front(calls)), Last(calls))
  }

  ghost predicate ClockForward(calls: seq<Call>) {
    forall i, j :: 0 <= i <= j < |calls| ==> calls[i].nowDay <= calls[j].nowDay
  }

  /** Nothing is granted after the stamped day; that day and every earlier one is within budget. */
  ghost predicate WithinBudget(b: Budget, day: nat) {
    && GrantedOn(b.grants, b.day) + b.left == DAILY_TOKENS
    && (day > b.day ==> GrantedOn(b.grants, day) == 0)
    && GrantedOn(b.grants, day) <= DAILY_TOKENS
  }

  lemma ConsumeStaysWithin(b: Budget, c: Call, day: nat)
    requires WithinBudget(b, day) && WithinBudget(b, c.nowDay) && b.day <= c.nowDay
    ensures WithinBudget(Consume(b, c), day) && Consume(b, c).day == c.nowDay
  {
    hide GrantedOn;
    GrantedSnoc(b.grants, Grant(c.nowDay, c.estimated), day);
    GrantedSnoc(b.grants, Grant(c.nowDay, c.estimated), c.nowDay);
  }

  lemma {:induction false} ServedDays(calls: seq<Call>, day: nat)
    requires ClockForward(calls)
    ensures WithinBudget(Serve(calls), day)
    ensures Serve(calls).day == if calls == [] then 0 else Last(calls).nowDay
    decreases |calls|
  {
    hide WithinBudget, Consume;
    if calls == [] {
      EmptyWithin(day);
    } else {
      var front, c := Front(calls), Last(calls);
      ClockForwardFront(calls);
      ServedDays(front, day);
      ServedDays(front, c.nowDay);
      ConsumeStaysWithin(Serve(front), c, day);
    }
  }

  /** With any clock the stamped day is the latest one a call came on: a call from an earlier day resets nothing. */
  lemma {:induction false} StampedDayIsLatest(calls: seq<Call>)
    ensures forall i :: 0 <= i < |calls| ==> calls[i].nowDay <= Serve(calls).day
    ensures Serve(calls).day == 0 || exists i :: 0 <= i < |calls| && calls[i].nowDay == Serve(calls).day
    ensures calls != [] && Last(calls).nowDay <= Serve(Front(calls)).day ==>
              Serve(calls).left <= Serve(Front(calls)).left
  {
    if calls != [] {
      StampedDayIsLatest(Front(calls));
      assert Last(calls) == calls[|calls| - 1];
      assert forall i :: 0 <= i < |calls| - 1 ==> Front(calls)[i] == calls[i];
    }
  }

  lemma EmptyWithin(day: nat)
    ensures WithinBudget(FULL, day)
  {
  }

  lemma ClockForwardFront(calls: seq<Call>)
    requires calls != [] && ClockForward(calls)
    ensures ClockForward(Front(calls))
    ensures Front(calls) != [] ==> Last(Front(calls)).nowDay <= Last(calls).nowDay
  {
  }

  /** A serialized call is granted exactly when the day it comes on still has that many tokens. */
  lemma GrantedExactly(calls: seq<Call>, c: Call)
    requires ClockForward(calls + [c])
    ensures Serve(calls + [c]).grants
            == if GrantedOn(Serve(calls).grants, c.nowDay) + c.estimated <= DAILY_TOKENS
               then Serve(calls).grants + [Grant(c.nowDay, c.estimated)] else Serve(calls).grants
  {
    hide GrantedOn, WithinBudget, Consume;
    assert Front(calls + [c]) == calls && Last(calls + [c]) == c;
    ClockForwardFront(calls + [c]);
    ServedDays(calls, c.nowDay);
    ConsumeGrants(Serve(calls), c);
  }

  lemma ConsumeGrants(b: Budget, c: Call)
    requires WithinBudget(b, c.nowDay) && b.day <= c.nowDay
    ensures Consume(b, c).grants
            == if GrantedOn(b.grants, c.nowDay) + c.estimated <= DAILY_TOKENS
               then b.grants + [Grant(c.nowDay, c.estimated)] else b.grants
  {
    hide GrantedOn;
  }

  /** Calls that follow one another, each by some thread. */
  function Serialized(calls: seq<Call>, tids: seq<nat>): seq<Step>
    requires |tids| == |calls|
  {
    if calls == [] then [] else Serialized(Front(calls), Front(tids)) + Actions(Last(tids), Last(calls))
  }

  /** Serialized calls are a run of the threads: the interleaving that never switches inside a call has
      the effect of `Serve`, whichever thread makes which call. */
  lemma {:induction false} SerializedIsServe(calls: seq<Call>, tids: seq<nat>)
    requires |tids| == |calls|
    ensures var w := Run(Serialized(calls, tids));
            && Budget(w.budget, w.day, w.grants) == Serve(calls)
            && forall tid :: PcOf(w, tid) == Idle
    decreases |calls|
  {
    hide Apply, Consume;
    if calls != [] {
      SerializedIsServe(Front(calls), Front(tids));
      var before := Serialized(Front(calls), Front(tids));
      RunActions(before, Last(tids), Last(calls));
      forall tid ensures PcOf(Run(Serialized(calls, tids)), tid) == Idle {
        assert PcOf(Run(before), tid) == Idle;
      }
    }
  }

  /** With serialized calls, by any threads, and a clock that does not go back, no UTC day is granted more
      than the budget. */
  lemma DailyLimit(calls: seq<Call>, tids: seq<nat>, day: nat)
    requires |tids| == |calls| && ClockForward(calls)
    ensures GrantedOn(Run(Serialized(calls, tids)).grants, day) <= DAILY_TOKENS
  {
    ServedDays(calls, day);
    SerializedIsServe(calls, tids);
  }
}

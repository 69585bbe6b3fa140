/**
 Leader election over one shared Redis key (`crates/rbmp-server/src/ha.rs`).

 Every instance runs the same tick: `SET key id NX EX lease`; if that fails, `GET` the key and,
 when it names this instance, `EXPIRE` it again. A tick that reaches Redis is one atomic step here.
 Times are milliseconds; the lease and the tick period are whole seconds, as in the configuration.
 */
module HaElection {
  import opened Common

  type InstanceId = string

  /** The value of the shared key. It is visible while `now < expiry`. */
  datatype Lease = Lease(holder: InstanceId, expiry: int)

  predicate Present(key: Option<Lease>, now: int) {
    key.Some? && now < key.value.expiry
  }

  /** What one connected tick of `id` does to the key, and the leader flag it leaves. */
  function TickEffect(key: Option<Lease>, id: InstanceId, now: int, ttl: nat): (Option<Lease>, bool) {
    if Present(key, now) && key.value.holder != id then (key, false)
    else (Some(Lease(id, now + ttl)), true)
  }

  // ---------------------------------------------------------------------------
  // The tick, command by command
  // ---------------------------------------------------------------------------

  /** The three Redis commands the election uses, on the one key it uses. */
  class LeaseStore {
    var value: Option<Lease>

    constructor ()
      ensures value == None
    {
      value := None;
    }

    /** `SET key id NX EX ttl`. */
    method SetNxEx(id: InstanceId, now: int, ttl: nat) returns (acquired: bool)
      modifies this
      ensures acquired == !Present(old(value), now)
      ensures value == if acquired then Some(Lease(id, now + ttl)) else old(value)
    {
      acquired := !Present(value, now);
      if acquired {
        value := Some(Lease(id, now + ttl));
      }
    }

    /** `GET key`. */
    method Get(now: int) returns (holder: Option<InstanceId>)
      ensures holder == if Present(value, now) then Some(value.value.holder) else None
    {
      holder := if Present(value, now) then Some(value.value.holder) else None;
    }

    /** `EXPIRE key ttl`: no effect on an absent key. */
    method Expire(now: int, ttl: nat)
      modifies this
      ensures value == if Present(old(value), now)
                       then Some(old(value).value.(expiry := now + ttl)) else old(value)
    {
      if Present(value, now) {
        value := Some(value.value.(expiry := now + ttl));
      }
    }
  }

  class HaState {
    const id: InstanceId
    const leaseSecs: nat
    var isLeader: bool

    constructor (id: InstanceId, leaseSecs: nat)
      ensures this.id == id && this.leaseSecs == leaseSecs && !isLeader
    {
      this.id, this.leaseSecs, isLeader := id, leaseSecs, false;
    }

    /** One turn of the election loop; a failed connection keeps the flag as it is. */
    method Tick(store: LeaseStore, now: int, connected: bool)
      modifies this, store
      requires leaseSecs > 0
      ensures connected ==>
                (store.value, isLeader) == TickEffect(old(store.value), id, now, 1000 * leaseSecs)
      ensures !connected ==> store.value == old(store.value) && isLeader == old(isLeader)
    {
      if !connected {
        return;
      }
      var acquired := store.SetNxEx(id, now, 1000 * leaseSecs);
      if acquired {
        store.Expire(now, 1000 * leaseSecs);
        isLeader := true;
      } else {
        var holder := store.Get(now);
        if holder == Some(id) {
          store.Expire(now, 1000 * leaseSecs);
          isLeader := true;
        } else {
          isLeader := false;
        }
      }
    }
  }

  // ---------------------------------------------------------------------------
  // Any number of instances, crashes, restarts, lost connections and time
  // ---------------------------------------------------------------------------

  /** `ticked` is the time of the last tick that reached Redis. */
  datatype Instance = Instance(live: bool, leader: bool, leaseSecs: nat, ticked: int) {
    function Ttl(): nat { 1000 * leaseSecs }
    function Period(): nat { 1000 * (leaseSecs / 2) }
  }

  /** Instance ids are distinct because they are the keys of a map. */
  datatype World = World(now: int, key: Option<Lease>, instances: map<InstanceId, Instance>) {
    ghost predicate LiveLeader(i: InstanceId) {
      i in instances && instances[i].live && instances[i].leader
    }

    /** The last tick of `i` is less than its lease ago. */
    ghost predicate Fresh(i: InstanceId)
      requires i in instances
    {
      now < instances[i].ticked + instances[i].Ttl()
    }
  }

  datatype Step =
    | Tick(id: InstanceId)
    | LostTick(id: InstanceId)
    | Crash(id: InstanceId)
    | Restart(id: InstanceId)
    | Elapse(ms: nat)

  function Apply(w: World, step: Step): World {
    match step
    case Elapse(ms) => w.(now := w.now + ms)
    case LostTick(_) => w
    case Tick(i) =>
      if i in w.instances && w.instances[i].live then
        var inst := w.instances[i];
        var (key, leader) := TickEffect(w.key, i, w.now, inst.Ttl());
        World(w.now, key, w.instances[i := inst.(leader := leader, ticked := w.now)])
      else w
    case Crash(i) =>
      if i in w.instances then w.(instances := w.instances[i := w.instances[i].(live := false)]) else w
    case Restart(i) =>
      if i in w.instances && !w.instances[i].live then
        w.(instances := w.instances[i := w.instances[i].(live := true, leader := false)])
      else w
  }

  function Run(w: World, steps: seq<Step>): World {
    if steps == [] then w else Apply(Run(w, steps[..|steps| - 1]), steps[|steps| - 1])
  }

  lemma RunPrefix(w: World, steps: seq<Step>, k: nat)
    requires k < |steps|
    ensures Run(w, steps[..0]) == w
    ensures Run(w, steps[..k + 1]) == Apply(Run(w, steps[..k]), steps[k])
  {
    assert steps[..k + 1][..k] == steps[..k];
  }

  /** Nobody leads yet; the key may hold anything. A lease under two seconds would make
      the tick period zero, which the timer refuses. */
  ghost predicate Initial(w: World) {
    forall i :: i in w.instances ==>
      !w.instances[i].leader && w.instances[i].leaseSecs >= 2 && w.instances[i].ticked <= w.now
  }

  /** A live leader whose last tick is fresh owns the key, until exactly that tick plus its lease. */
  ghost predicate LeaseInvariant(w: World) {
    && (forall i :: i in w.instances ==> w.instances[i].leaseSecs >= 2 && w.instances[i].ticked <= w.now)
    && (forall i :: w.LiveLeader(i) && w.Fresh(i) ==>
         w.key == Some(Lease(i, w.instances[i].ticked + w.instances[i].Ttl())))
  }

  lemma ApplyKeepsLease(w: World, step: Step)
    requires LeaseInvariant(w)
    ensures LeaseInvariant(Apply(w, step))
  {
  }

  lemma {:induction false} RunKeepsLease(w: World, steps: seq<Step>)
    requires Initial(w)
    ensures LeaseInvariant(Run(w, steps))
  {
    if steps != [] {
      RunKeepsLease(w, steps[..|steps| - 1]);
      ApplyKeepsLease(Run(w, steps[..|steps| - 1]), steps[|steps| - 1]);
    }
  }

  /** In every run, lost connections, crashes and restarts included, at most one live instance
      leads on a lease that has not run out. */
  lemma AtMostOneFreshLeader(w: World, steps: seq<Step>, i: InstanceId, j: InstanceId)
    requires Initial(w)
    requires var e := Run(w, steps); e.LiveLeader(i) && e.Fresh(i) && e.LiveLeader(j) && e.Fresh(j)
    ensures i == j
  {
    RunKeepsLease(w, steps);
  }

  /** Time never passes so far that a live leader's last tick is a whole lease ago. */
  ghost predicate Timely(w: World, steps: seq<Step>) {
    forall k, i :: 0 <= k <= |steps| && Run(w, steps[..k]).LiveLeader(i) ==> Run(w, steps[..k]).Fresh(i)
  }

  /** Safety of whole runs: while the ticks of leaders reach Redis less than a lease apart,
      no two live instances ever lead at once, at any point of the run. */
  lemma AtMostOneLeader(w: World, steps: seq<Step>, k: nat, i: InstanceId, j: InstanceId)
    requires Initial(w) && Timely(w, steps) && k <= |steps|
    requires Run(w, steps[..k]).LiveLeader(i) && Run(w, steps[..k]).LiveLeader(j)
    ensures i == j
    ensures Present(Run(w, steps[..k]).key, Run(w, steps[..k]).now)
    ensures Run(w, steps[..k]).key.value.holder == i
  {
    RunKeepsLease(w, steps[..k]);
  }

  /** Exactly when the next tick makes a second leader, in every reachable state, whoever holds the key by
      then: beside a live leader `i`, a live `j` that ticks leads too if and only if the key is absent or
      names `j`. That takes a leader whose last tick is a whole lease ago. */
  lemma SecondLeaderIff(w: World, steps: seq<Step>, i: InstanceId, j: InstanceId)
    requires Initial(w)
    requires var e := Run(w, steps); e.LiveLeader(i) && j in e.instances && e.instances[j].live && i != j
    ensures var e := Run(w, steps);
            var e' := Apply(e, Tick(j));
            && e'.LiveLeader(i)
            && (e'.LiveLeader(j) <==> !Present(e.key, e.now) || e.key.value.holder == j)
            && (e'.LiveLeader(j) ==> !e.Fresh(i))
  {
    RunKeepsLease(w, steps);
  }

  /** Without that side condition safety fails: a leader that loses Redis keeps its flag
      while another instance takes the expired key. */
  lemma TwoLeadersAfterLostTicks() returns (w: World, steps: seq<Step>)
    ensures Initial(w) && Run(w, steps).LiveLeader("a") && Run(w, steps).LiveLeader("b")
    ensures steps == [Tick("a"), Elapse(10000), LostTick("a"), Tick("b")] && "a" != "b"
  {
    assert "a"[0] != "b"[0];
    var idle := Instance(true, false, 10, 0);
    w := World(0, None, map["a" := idle, "b" := idle]);
    steps := [Tick("a"), Elapse(10000), LostTick("a"), Tick("b")];
    RunPrefix(w, steps, 0);
    RunPrefix(w, steps, 1);
    RunPrefix(w, steps, 2);
    RunPrefix(w, steps, 3);
    assert steps[..4] == steps;
    var w1 := Run(w, steps[..1]);
    assert w1.key == Some(Lease("a", 10000)) && w1.instances["b"] == idle;
    var w3 := Run(w, steps[..3]);
    assert w3 == w1.(now := 10000);
    assert Run(w, steps) == Apply(w3, Tick("b"));
  }

  // ---------------------------------------------------------------------------
  // Takeover
  // ---------------------------------------------------------------------------

  ghost predicate SomeLiveLeader(w: World) {
    exists i :: w.LiveLeader(i)
  }

  /** Every live instance has ticked within its period. */
  ghost predicate Ticking(w: World) {
    forall i :: i in w.instances && w.instances[i].live ==>
      w.now <= w.instances[i].ticked + w.instances[i].Period()
  }

  /** A run in which nobody else stops or starts, every tick reaches Redis, and every live
      instance keeps its period. */
  ghost predicate SteadyRun(w: World, steps: seq<Step>) {
    && (forall k :: 0 <= k < |steps| ==> steps[k].Tick? || steps[k].Elapse?)
    && (forall k :: 0 <= k <= |steps| ==> Ticking(Run(w, steps[..k])))
  }

  /** The state right after the leader stopped: whatever the key holds runs out by `expiry`. */
  ghost predicate LeaderStopped(w: World, expiry: int) {
    && LeaseInvariant(w)
    && (Present(w.key, w.now) ==> w.key.value.expiry <= expiry)
    && w.now < expiry
  }

  /** Either a live instance leads, or nobody has ticked since the old lease ran out
      and the key is still the old one. */
  ghost predicate Waiting(w: World, expiry: int) {
    || SomeLiveLeader(w)
    || ((forall i :: i in w.instances && w.instances[i].live ==> w.instances[i].ticked < expiry)
        && (Present(w.key, w.now) ==> w.key.value.expiry <= expiry))
  }

  /** In a run that keeps its periods, every live leader is fresh. */
  lemma TickingIsFresh(w: World, i: InstanceId)
    requires LeaseInvariant(w) && Ticking(w) && w.LiveLeader(i)
    ensures w.Fresh(i)
  {
  }

  lemma SteadyStepWaits(w: World, step: Step, expiry: int)
    requires LeaseInvariant(w) && Ticking(w) && Waiting(w, expiry)
    requires step.Tick? || step.Elapse?
    ensures Waiting(Apply(w, step), expiry)
  {
    var w' := Apply(w, step);
    if i :| w.LiveLeader(i) {
      TickingIsFresh(w, i);
      assert w'.LiveLeader(i);
    } else if step.Tick? && step.id in w.instances && w.instances[step.id].live {
      if w'.instances[step.id].leader {
        assert w'.LiveLeader(step.id);
      } else {
        assert Present(w.key, w.now);
      }
    }
  }

  lemma {:induction false} SteadyRunWaits(w: World, steps: seq<Step>, expiry: int)
    requires LeaderStopped(w, expiry) && SteadyRun(w, steps)
    ensures LeaseInvariant(Run(w, steps)) && Waiting(Run(w, steps), expiry)
    ensures forall i :: i in w.instances ==>
              i in Run(w, steps).instances && Run(w, steps).instances[i].live == w.instances[i].live
              && Run(w, steps).instances[i].leaseSecs == w.instances[i].leaseSecs
  {
    if steps == [] {
      assert steps[..0] == steps;
    } else {
      var init := steps[..|steps| - 1];
      forall k | 0 <= k <= |init| ensures Ticking(Run(w, init[..k])) {
        assert init[..k] == steps[..k];
      }
      SteadyRunWaits(w, init, expiry);
      assert Ticking(Run(w, steps[..|init|]));
      ApplyKeepsLease(Run(w, init), steps[|steps| - 1]);
      SteadyStepWaits(Run(w, init), steps[|steps| - 1], expiry);
    }
  }

  /** Bounded takeover: once the old lease has run out for the period of some live instance `j`,
      a live instance leads, whatever the other instances did meanwhile. */
  lemma TakeoverBound(w: World, steps: seq<Step>, expiry: int, j: InstanceId)
    requires LeaderStopped(w, expiry) && SteadyRun(w, steps)
    requires j in w.instances && w.instances[j].live
    requires Run(w, steps).now >= expiry + w.instances[j].Period()
    ensures SomeLiveLeader(Run(w, steps))
  {
    SteadyRunWaits(w, steps, expiry);
    assert steps[..|steps|] == steps;
    assert Ticking(Run(w, steps));
  }

  /** The bound for a crashed leader `l` of any reachable state: its last renewal, plus its lease,
      plus the tick period of one surviving instance. */
  lemma TakeoverAfterCrash(w: World, before: seq<Step>, l: InstanceId, after: seq<Step>, j: InstanceId)
    requires Initial(w)
    requires Run(w, before).LiveLeader(l) && Run(w, before).Fresh(l)
    requires var c := Apply(Run(w, before), Crash(l));
             && SteadyRun(c, after)
             && j in c.instances && c.instances[j].live
             && Run(c, after).now
                >= c.instances[l].ticked + 1000 * c.instances[l].leaseSecs + 1000 * (c.instances[j].leaseSecs / 2)
    ensures SomeLiveLeader(Run(Apply(Run(w, before), Crash(l)), after))
  {
    RunKeepsLease(w, before);
    var c := Apply(Run(w, before), Crash(l));
    ApplyKeepsLease(Run(w, before), Crash(l));
    TakeoverBound(c, after, c.instances[l].ticked + c.instances[l].Ttl(), j);
  }

  // ---------------------------------------------------------------------------
  // The bound is exact
  // ---------------------------------------------------------------------------

  lemma {:induction false} RunAppend(w: World, a: seq<Step>, b: seq<Step>)
    ensures Run(w, a + b) == Run(Run(w, a), b)
  {
    if b == [] {
      assert a + b == a;
    } else {
      var n := |b| - 1;
      assert (a + b)[..|a + b| - 1] == a + b[..n];
      RunAppend(w, a, b[..n]);
    }
  }

  lemma SteadyAppend(w: World, a: seq<Step>, b: seq<Step>)
    requires SteadyRun(w, a) && SteadyRun(Run(w, a), b)
    ensures SteadyRun(w, a + b) && Run(w, a + b) == Run(Run(w, a), b)
  {
    hide Ticking, Run;
    RunAppend(w, a, b);
    forall k | 0 <= k <= |a + b| ensures Ticking(Run(w, (a + b)[..k])) {
      if k <= |a| {
        assert (a + b)[..k] == a[..k];
      } else {
        assert (a + b)[..k] == a + b[..k - |a|];
        RunAppend(w, a, b[..k - |a|]);
      }
    }
  }

  lemma SteadyStep(w: World, step: Step)
    requires Ticking(w) && (step.Tick? || step.Elapse?) && Ticking(Apply(w, step))
    ensures SteadyRun(w, [step]) && Run(w, [step]) == Apply(w, step)
  {
    hide Ticking, Apply;
    RunPrefix(w, [step], 0);
    assert [step][..1] == [step];
    forall k | 0 <= k <= 1 ensures Ticking(Run(w, [step][..k])) {
      assert k == 0 || k == 1;
    }
  }

  /** The key still names the stopped leader, nobody leads, and everybody is on time. */
  ghost predicate Leaderless(w: World, l: InstanceId, expiry: int) {
    && w.key == Some(Lease(l, expiry)) && w.now < expiry
    && (l in w.instances ==> !w.instances[l].live)
    && (forall i :: i in w.instances ==> w.instances[i].leaseSecs >= 2 && !w.LiveLeader(i))
    && Ticking(w)
  }

  /** The same instances, but for when they last ticked. */
  ghost predicate SameInstances(w: World, w': World) {
    && w'.instances.Keys == w.instances.Keys
    && forall i :: i in w.instances ==>
         w'.instances[i].live == w.instances[i].live && w'.instances[i].leaseSecs == w.instances[i].leaseSecs
  }

  ghost predicate JustTicked(w: World, ids: set<InstanceId>) {
    forall i :: i in ids && i in w.instances && w.instances[i].live ==> w.instances[i].ticked == w.now
  }

  lemma OneTicks(w: World, i: InstanceId, done: set<InstanceId>, l: InstanceId, expiry: int)
    requires Leaderless(w, l, expiry) && JustTicked(w, done)
    ensures var w' := Apply(w, Tick(i));
            Leaderless(w', l, expiry) && JustTicked(w', done + {i}) && SameInstances(w, w') && w'.now == w.now
  {
  }

  /** All instances of `ids` tick, one after the other. */
  lemma {:induction false} AllTick(w: World, ids: set<InstanceId>, l: InstanceId, expiry: int)
    returns (steps: seq<Step>)
    requires Leaderless(w, l, expiry)
    ensures SteadyRun(w, steps)
    ensures var e := Run(w, steps);
            Leaderless(e, l, expiry) && JustTicked(e, ids) && SameInstances(w, e) && e.now == w.now
    decreases |ids|
  {
    hide Run, Apply;
    if ids == {} {
      steps := [];
      NoSteps(w);
    } else {
      var i :| i in ids;
      var before := AllTick(w, ids - {i}, l, expiry);
      var mid := Run(w, before);
      OneTicks(mid, i, ids - {i}, l, expiry);
      SteadyStep(mid, Tick(i));
      SteadyAppend(w, before, [Tick(i)]);
      steps := before + [Tick(i)];
      assert ids - {i} + {i} == ids;
    }
  }

  lemma NoSteps(w: World)
    requires Ticking(w)
    ensures SteadyRun(w, []) && Run(w, []) == w
  {
    var none: seq<Step> := [];
    assert forall k :: 0 <= k <= 0 ==> none[..k] == none;
  }

  lemma OneMillisecond(w: World, l: InstanceId, expiry: int)
    requires Leaderless(w, l, expiry) && JustTicked(w, w.instances.Keys) && w.now + 1 < expiry
    ensures Leaderless(Apply(w, Elapse(1)), l, expiry)
  {
  }

  /** Up to any time before the old lease runs out there is a steady run in which everybody ticks and
      nobody leads. */
  lemma {:induction false} QuietUntil(w: World, l: InstanceId, expiry: int, t: int) returns (steps: seq<Step>)
    requires Leaderless(w, l, expiry) && w.now <= t < expiry
    ensures SteadyRun(w, steps)
    ensures var e := Run(w, steps);
            Leaderless(e, l, expiry) && JustTicked(e, e.instances.Keys) && SameInstances(w, e) && e.now == t
    decreases t - w.now
  {
    hide Run, Apply, Leaderless;
    if w.now == t {
      steps := AllTick(w, w.instances.Keys, l, expiry);
    } else {
      var before := QuietUntil(w, l, expiry, t - 1);
      var mid := Run(w, before);
      OneMillisecond(mid, l, expiry);
      var next := Apply(mid, Elapse(1));
      assert next == mid.(now := t) by { ElapseEffect(mid, 1); }
      assert Ticking(mid) && Ticking(next) by { LeaderlessTicks(mid, l, expiry); LeaderlessTicks(next, l, expiry); }
      SteadyStep(mid, Elapse(1));
      var round := AllTick(next, next.instances.Keys, l, expiry);
      SteadyAppend(w, before, [Elapse(1)]);
      SteadyAppend(w, before + [Elapse(1)], round);
      steps := before + [Elapse(1)] + round;
    }
  }

  lemma ElapseEffect(w: World, ms: nat)
    ensures Apply(w, Elapse(ms)) == w.(now := w.now + ms)
  {
  }

  lemma LeaderlessTicks(w: World, l: InstanceId, expiry: int)
    requires Leaderless(w, l, expiry)
    ensures Ticking(w)
  {
  }

  /** And up to any time within everybody's period after it. */
  lemma LeaderlessUntil(w: World, l: InstanceId, expiry: int, t: int) returns (steps: seq<Step>)
    requires Leaderless(w, l, expiry) && w.now <= t
    requires forall j :: j in w.instances && w.instances[j].live ==> t < expiry + w.instances[j].Period()
    ensures SteadyRun(w, steps) && Run(w, steps).now == t && !SomeLiveLeader(Run(w, steps))
  {
    hide Run;
    if t < expiry {
      steps := QuietUntil(w, l, expiry, t);
    } else {
      var before := QuietUntil(w, l, expiry, expiry - 1);
      var mid := Run(w, before);
      SteadyStep(mid, Elapse(t - mid.now));
      SteadyAppend(w, before, [Elapse(t - mid.now)]);
      steps := before + [Elapse(t - mid.now)];
    }
  }

  /** Every steady run from `c` has a live leader at all times from `t` on. */
  ghost predicate TakenOverBy(c: World, t: int) {
    forall after :: SteadyRun(c, after) && Run(c, after).now >= t ==> SomeLiveLeader(Run(c, after))
  }

  /** The state right after the crash of leader `l`: the key outlives it and nobody else leads. */
  lemma CrashIsLeaderless(w: World, before: seq<Step>, l: InstanceId)
    requires Initial(w)
    requires Run(w, before).LiveLeader(l) && Run(w, before).Fresh(l)
    requires Ticking(Apply(Run(w, before), Crash(l)))
    ensures var c := Apply(Run(w, before), Crash(l));
            l in c.instances && Leaderless(c, l, c.instances[l].ticked + c.instances[l].Ttl())
  {
    RunKeepsLease(w, before);
    var b, c := Run(w, before), Apply(Run(w, before), Crash(l));
    forall i | c.LiveLeader(i) ensures false {
      assert b.LiveLeader(i) && b.Fresh(i);
    }
  }

  /** The takeover bound is exact: after a leader `l` crashes in any reachable state whose survivors are on
      time, all steady runs have a leader from time `t` on if and only if some survivor's period fits between
      the end of the old lease and `t`. */
  lemma TakenOverIff(w: World, before: seq<Step>, l: InstanceId, t: int)
    requires Initial(w)
    requires Run(w, before).LiveLeader(l) && Run(w, before).Fresh(l)
    requires var c := Apply(Run(w, before), Crash(l)); Ticking(c) && c.now <= t
    ensures var c := Apply(Run(w, before), Crash(l));
            TakenOverBy(c, t)
            <==> exists j :: j in c.instances && c.instances[j].live
                             && t >= c.instances[l].ticked + 1000 * c.instances[l].leaseSecs
                                     + 1000 * (c.instances[j].leaseSecs / 2)
  {
    var c := Apply(Run(w, before), Crash(l));
    CrashIsLeaderless(w, before, l);
    var expiry := c.instances[l].ticked + c.instances[l].Ttl();
    if j :| j in c.instances && c.instances[j].live && t >= expiry + c.instances[j].Period() {
      forall after | SteadyRun(c, after) && Run(c, after).now >= t ensures SomeLiveLeader(Run(c, after)) {
        TakeoverAfterCrash(w, before, l, after, j);
      }
    } else {
      var after := LeaderlessUntil(c, l, expiry, t);
    }
  }

  /** The module comment promises takeover within `lease_secs` of the failure. The code keeps that promise
      exactly when, at the crash, the last renewal is at least the tick period of some survivor ago. */
  lemma TakeoverWithinLeaseIff(w: World, before: seq<Step>, l: InstanceId)
    requires Initial(w)
    requires Run(w, before).LiveLeader(l) && Run(w, before).Fresh(l)
    requires Ticking(Apply(Run(w, before), Crash(l)))
    ensures var c := Apply(Run(w, before), Crash(l));
            TakenOverBy(c, c.now + 1000 * c.instances[l].leaseSecs)
            <==> exists j :: j in c.instances && c.instances[j].live
                             && c.now >= c.instances[l].ticked + 1000 * (c.instances[j].leaseSecs / 2)
  {
    var c := Apply(Run(w, before), Crash(l));
    TakenOverIff(w, before, l, c.now + c.instances[l].Ttl());
  }

  /** So it can take longer: here the leader stops right after a renewal, and half a lease after its lease
      ran out nobody leads, although the survivor ticks on time. */
  lemma TakeoverCanExceedLease() returns (w: World, before: seq<Step>, after: seq<Step>)
    ensures Initial(w) && Run(w, before).LiveLeader("a") && Run(w, before).Fresh("a")
    ensures var c := Apply(Run(w, before), Crash("a"));
            && "b" in c.instances && c.instances["b"].live
            && SteadyRun(c, after)
            && Run(c, after).now == c.now + c.instances["a"].Ttl() + c.instances["b"].Period() - 1
            && !SomeLiveLeader(Run(c, after))
  {
    assert "a"[0] != "b"[0];
    var idle := Instance(true, false, 10, 0);
    w := World(0, None, map["a" := idle, "b" := idle]);
    before := [Tick("a")];
    RunPrefix(w, before, 0);
    assert before[..1] == before;
    var c := Apply(Run(w, before), Crash("a"));
    assert c.instances["a"] == Instance(false, true, 10, 0) && c.instances["b"] == idle;
    after := LeaderlessUntil(c, "a", 10000, 14999);
  }
}

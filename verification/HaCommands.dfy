/**
 The same election command by command (`crates/rbmp-server/src/ha.rs`, lines 67-110): a tick is up to
 three Redis commands, other instances and time can come between any two of them, and a command or its
 reply can get lost.
 */
module HaCommands {
  import opened Common
  import HaElection

  type InstanceId = HaElection.InstanceId
  type Lease = HaElection.Lease

  /** Where an instance is in its tick: before `SET`, before `GET`, or before `EXPIRE`. */
  datatype Phase = Resting | Asking | Renewing

  /** `until` is the time up to which the instance has seen Redis promise it the key. */
  datatype Instance = Instance(live: bool, leader: bool, phase: Phase, until: int, ttl: nat)

  datatype World = World(now: int, key: Option<Lease>, instances: map<InstanceId, Instance>) {
    ghost predicate LiveLeader(i: InstanceId) {
      i in instances && instances[i].live && instances[i].leader
    }

    ghost predicate Promised(i: InstanceId)
      requires i in instances
    {
      now < instances[i].until
    }
  }

  /** `reached`: Redis executes the command. `replied`: the instance gets the answer. */
  datatype Step =
    | Set(id: InstanceId, reached: bool, replied: bool)
    | Get(id: InstanceId, replied: bool)
    | Expire(id: InstanceId, reached: bool)
    | Crash(id: InstanceId)
    | Restart(id: InstanceId)
    | Elapse(ms: nat)

  function With(w: World, i: InstanceId, inst: Instance): World {
    w.(instances := w.instances[i := inst])
  }

  predicate At(w: World, i: InstanceId, phase: Phase) {
    i in w.instances && w.instances[i].live && w.instances[i].phase == phase
  }

  function Apply(w: World, step: Step): World {
    match step
    case Elapse(ms) => w.(now := w.now + ms)
    case Set(i, reached, replied) =>
      if !At(w, i, Resting) then w
      else
        var inst := w.instances[i];
        var acquired := reached && !HaElection.Present(w.key, w.now);
        var key := if acquired then Some(HaElection.Lease(i, w.now + inst.ttl)) else w.key;
        var next := if acquired && replied then inst.(phase := Renewing, until := w.now + inst.ttl)
                    else inst.(phase := Asking);
        With(w, i, next).(key := key)
    case Get(i, replied) =>
      if !At(w, i, Asking) then w
      else if replied && HaElection.Present(w.key, w.now) && w.key.value.holder == i then
        With(w, i, w.instances[i].(phase := Renewing, until := w.key.value.expiry))
      else With(w, i, w.instances[i].(phase := Resting, leader := false))
    case Expire(i, reached) =>
      if !At(w, i, Renewing) then w
      else
        var inst := w.instances[i];
        var key := if reached && HaElection.Present(w.key, w.now)
                   then Some(w.key.value.(expiry := w.now + inst.ttl)) else w.key;
        var until := if reached then w.now + inst.ttl else inst.until;
        With(w, i, inst.(phase := Resting, leader := true, until := until)).(key := key)
    case Crash(i) =>
      if i in w.instances then With(w, i, w.instances[i].(live := false)) else w
    case Restart(i) =>
      if i in w.instances && !w.instances[i].live
      then With(w, i, w.instances[i].(live := true, leader := false, phase := Resting)) else w
  }

  function Run(w: World, steps: seq<Step>): World {
    if steps == [] then w else Apply(Run(w, Front(steps)), Last(steps))
  }

  ghost predicate Initial(w: World) {
    forall i :: i in w.instances ==> !w.instances[i].leader && w.instances[i].phase == Resting
  }

  /** `EXPIRE` is sent before the lease that the instance saw in this tick has run out. */
  ghost predicate OnTime(w: World, step: Step) {
    step.Expire? && At(w, step.id, Renewing) ==> w.Promised(step.id)
  }

  ghost predicate Punctual(w: World, steps: seq<Step>) {
    steps == [] || (Punctual(w, Front(steps)) && OnTime(Run(w, Front(steps)), Last(steps)))
  }

  /** Whoever leads, or is about to, on a promise that stands holds the key at least that long. */
  ghost predicate PromiseInvariant(w: World) {
    forall i :: i in w.instances && w.instances[i].live
                && (w.instances[i].leader || w.instances[i].phase == Renewing) && w.Promised(i) ==>
      w.key.Some? && w.key.value.holder == i && w.key.value.expiry >= w.instances[i].until
  }

  lemma ApplyKeepsPromises(w: World, step: Step)
    requires PromiseInvariant(w) && OnTime(w, step)
    ensures PromiseInvariant(Apply(w, step))
  {
  }

  lemma {:induction false} RunKeepsPromises(w: World, steps: seq<Step>)
    requires PromiseInvariant(w) && Punctual(w, steps)
    ensures PromiseInvariant(Run(w, steps))
    decreases |steps|
  {
    if steps != [] {
      RunKeepsPromises(w, Front(steps));
      ApplyKeepsPromises(Run(w, Front(steps)), Last(steps));
    }
  }

  /** Safety without atomic ticks: in every interleaving of commands, lost commands and replies, crashes
      and restarts in which no `EXPIRE` is sent late, at most one live instance leads on a promise that
      stands, and it is the one the key names. */
  lemma AtMostOnePromisedLeader(w: World, steps: seq<Step>, i: InstanceId, j: InstanceId)
    requires Initial(w) && Punctual(w, steps)
    requires var e := Run(w, steps);
             e.LiveLeader(i) && e.Promised(i) && e.LiveLeader(j) && e.Promised(j)
    ensures i == j && HaElection.Present(Run(w, steps).key, Run(w, steps).now)
    ensures Run(w, steps).key.value.holder == i
  {
    RunKeepsPromises(w, steps);
  }

  // ---------------------------------------------------------------------------
  // Late renewals
  // ---------------------------------------------------------------------------

  /** What the code does not check before `EXPIRE`: the key is still there and names the sender. */
  ghost predicate HoldsKey(w: World, i: InstanceId) {
    HaElection.Present(w.key, w.now) && w.key.value.holder == i
  }

  /** An `EXPIRE` that arrives keeps the promises if and only if its sender still holds the key. */
  lemma RenewalKeepsPromisesIff(w: World, i: InstanceId)
    requires PromiseInvariant(w) && At(w, i, Renewing) && w.instances[i].ttl > 0
    ensures PromiseInvariant(Apply(w, Expire(i, true))) <==> HoldsKey(w, i)
  {
    var e := Apply(w, Expire(i, true));
    assert e.LiveLeader(i) && e.Promised(i);
  }

  ghost predicate BothLead(w: World, i: InstanceId, j: InstanceId) {
    w.LiveLeader(i) && w.Promised(i) && w.LiveLeader(j) && w.Promised(j)
  }

  /** In every reachable state, an `EXPIRE` of `i` makes a second leader beside `j` on the spot if and only
      if `j` led on a standing promise; then the key names `j` and `i` sent it late. */
  lemma RenewalBesideLeaderIff(w: World, steps: seq<Step>, i: InstanceId, j: InstanceId)
    requires Initial(w) && Punctual(w, steps) && i != j
    requires At(Run(w, steps), i, Renewing) && Run(w, steps).instances[i].ttl > 0
    ensures var e := Run(w, steps);
            && (BothLead(Apply(e, Expire(i, true)), i, j) <==> e.LiveLeader(j) && e.Promised(j))
            && (BothLead(Apply(e, Expire(i, true)), i, j) ==> HoldsKey(e, j) && !e.Promised(i))
  {
    RunKeepsPromises(w, steps);
  }

  /** Some run that sends no `EXPIRE` late, from `w`, has both instances lead on standing promises. */
  ghost predicate CanBothLead(w: World, i: InstanceId, j: InstanceId) {
    exists more :: Punctual(w, more) && BothLead(Run(w, more), i, j)
  }

  /** Somebody but `i` could take the key now: it is absent, or names them. */
  ghost predicate AnotherCanTake(w: World, i: InstanceId) {
    exists j :: j != i && j in w.instances && (HaElection.Present(w.key, w.now) ==> w.key.value.holder == j)
  }

  /** The guard is exact for what follows: in every reachable state where `i` is about to renew, its `EXPIRE`
      opens the way to two leaders, with every later `EXPIRE` on time, if and only if `i` does not hold the key
      any more and another instance could. */
  lemma RenewalDangerousIff(w: World, steps: seq<Step>, i: InstanceId)
    requires Initial(w) && Punctual(w, steps)
    requires var e := Run(w, steps);
             At(e, i, Renewing) && forall j :: j in e.instances ==> e.instances[j].ttl > 0
    ensures var e := Run(w, steps);
            (exists j :: j != i && CanBothLead(Apply(e, Expire(i, true)), i, j))
            <==> !HoldsKey(e, i) && AnotherCanTake(e, i)
  {
    hide Run, Punctual, CanBothLead;
    RunKeepsPromises(w, steps);
    var e := Run(w, steps);
    var renewed := Apply(e, Expire(i, true));
    if !HoldsKey(e, i) && AnotherCanTake(e, i) {
      var j :| j != i && j in e.instances && (HaElection.Present(e.key, e.now) ==> e.key.value.holder == j);
      TakeoverPossible(renewed, i, j);
    } else {
      forall j | j != i ensures !CanBothLead(renewed, i, j) {
        if HoldsKey(e, i) {
          RenewalKeepsPromisesIff(e, i);
        }
        NeverBothLead(renewed, i, j);
      }
    }
  }

  lemma TakeoverPossible(w: World, i: InstanceId, j: InstanceId)
    requires i != j && w.LiveLeader(i) && w.Promised(i)
    requires j in w.instances && w.instances[j].ttl > 0
    requires HaElection.Present(w.key, w.now) ==> w.key.value.holder == j
    ensures CanBothLead(w, i, j)
  {
    hide Run, Punctual;
    var more := OtherTakesOver(w, i, j);
  }

  /** As the promise invariant, but `i` may also rely on a key that names no instance. */
  ghost predicate PromisesBut(w: World, i: InstanceId) {
    forall j :: j in w.instances && w.instances[j].live
                && (w.instances[j].leader || w.instances[j].phase == Renewing) && w.Promised(j) ==>
      && w.key.Some? && w.key.value.expiry >= w.instances[j].until
      && (w.key.value.holder == j || (j == i && w.key.value.holder !in w.instances))
  }

  lemma ApplyKeepsPromisesBut(w: World, step: Step, i: InstanceId)
    requires PromisesBut(w, i) && OnTime(w, step)
    ensures PromisesBut(Apply(w, step), i) && Apply(w, step).instances.Keys == w.instances.Keys
  {
  }

  lemma {:induction false} RunKeepsPromisesBut(w: World, steps: seq<Step>, i: InstanceId)
    requires PromisesBut(w, i) && Punctual(w, steps)
    ensures PromisesBut(Run(w, steps), i) && Run(w, steps).instances.Keys == w.instances.Keys
    decreases |steps|
  {
    hide PromisesBut, Apply;
    if steps != [] {
      RunKeepsPromisesBut(w, Front(steps), i);
      ApplyKeepsPromisesBut(Run(w, Front(steps)), Last(steps), i);
    }
  }

  lemma {:induction false} RunKeepsInstances(w: World, steps: seq<Step>)
    ensures Run(w, steps).instances.Keys == w.instances.Keys
    decreases |steps|
  {
    if steps != [] {
      RunKeepsInstances(w, Front(steps));
    }
  }

  /** Without another instance, or while no other instance can take the key, two never lead. */
  lemma NeverBothLead(w: World, i: InstanceId, j: InstanceId)
    requires i != j && (PromisesBut(w, i) || j !in w.instances)
    ensures !CanBothLead(w, i, j)
  {
    hide Run, Punctual, PromisesBut;
    forall more | Punctual(w, more) ensures !BothLead(Run(w, more), i, j) {
      RunKeepsInstances(w, more);
      if PromisesBut(w, i) {
        RunKeepsPromisesBut(w, more, i);
        OneHolder(Run(w, more), i, j);
      }
    }
  }

  lemma OneHolder(w: World, i: InstanceId, j: InstanceId)
    requires i != j && PromisesBut(w, i)
    ensures !BothLead(w, i, j)
  {
  }

  /** `j` restarts, and its first tick finds the key free or its own. */
  lemma OtherTakesOver(w: World, i: InstanceId, j: InstanceId) returns (more: seq<Step>)
    requires i != j && w.LiveLeader(i) && w.Promised(i)
    requires j in w.instances && w.instances[j].ttl > 0
    requires HaElection.Present(w.key, w.now) ==> w.key.value.holder == j
    ensures Punctual(w, more) && BothLead(Run(w, more), i, j)
  {
    more := [Crash(j), Restart(j), Set(j, true, true), Get(j, true), Expire(j, true)];
    var w2 := Apply(Apply(w, Crash(j)), Restart(j));
    var w4 := Apply(Apply(w2, Set(j, true, true)), Get(j, true));
    FirstTick(w, w2, w4, j);
    FiveSteps(w, more);
    assert BothLead(Apply(w4, Expire(j, true)), i, j);
  }

  lemma FirstTick(w: World, w2: World, w4: World, j: InstanceId)
    requires j in w.instances && w.instances[j].ttl > 0
    requires HaElection.Present(w.key, w.now) ==> w.key.value.holder == j
    requires w2 == Apply(Apply(w, Crash(j)), Restart(j))
    requires w4 == Apply(Apply(w2, Set(j, true, true)), Get(j, true))
    ensures w4.now == w.now && At(w4, j, Renewing) && w4.Promised(j) && w4.instances[j].ttl > 0
    ensures w4.instances.Keys == w.instances.Keys
    ensures forall i :: i in w.instances && i != j ==> w4.instances[i] == w.instances[i]
  {
    assert At(w2, j, Resting) && w2.key == w.key && w2.now == w.now && w2.instances[j].ttl == w.instances[j].ttl;
  }

  /** Five steps, the first four without an `EXPIRE`. */
  lemma FiveSteps(w: World, steps: seq<Step>)
    requires |steps| == 5 && forall k :: 0 <= k < 4 ==> !steps[k].Expire?
    ensures var w4 := Apply(Apply(Apply(Apply(w, steps[0]), steps[1]), steps[2]), steps[3]);
            Run(w, steps) == Apply(w4, steps[4]) && (Punctual(w, steps) <==> OnTime(w4, steps[4]))
  {
    hide Apply, Run, Punctual;
    StepTaken(w, steps, 0);
    StepTaken(w, steps, 1);
    StepTaken(w, steps, 2);
    StepTaken(w, steps, 3);
    StepTaken(w, steps, 4);
    assert steps[..5] == steps;
  }

  lemma StepTaken(w: World, steps: seq<Step>, k: nat)
    requires k < |steps|
    ensures Run(w, steps[..0]) == w && Punctual(w, steps[..0])
    ensures var e := Run(w, steps[..k]);
            && Run(w, steps[..k + 1]) == Apply(e, steps[k])
            && (Punctual(w, steps[..k + 1]) <==> Punctual(w, steps[..k]) && OnTime(e, steps[k]))
  {
    hide Apply;
    assert Front(steps[..k + 1]) == steps[..k] && Last(steps[..k + 1]) == steps[k];
  }

  /** It happens: `a` takes the key and stalls for a lease, `b` takes it and leads, and then the late `EXPIRE`
      of `a` renews the lease of `b` and promotes `a`. */
  lemma LateRenewalMakesTwoLeaders() returns (w: World, steps: seq<Step>)
    ensures Initial(w) && Punctual(w, steps) && "a" != "b"
    ensures steps == [Set("a", true, true), Elapse(10000), Set("b", true, true), Expire("b", true)]
    ensures BothLead(Apply(Run(w, steps), Expire("a", true)), "a", "b")
  {
    assert "a"[0] != "b"[0];
    var rest := Instance(true, false, Resting, 0, 10000);
    w := World(0, None, map["a" := rest, "b" := rest]);
    steps := [Set("a", true, true), Elapse(10000), Set("b", true, true), Expire("b", true)];
    var stalled := rest.(phase := Renewing, until := 10000);
    var w2 := World(10000, Some(HaElection.Lease("a", 10000)), map["a" := stalled, "b" := rest]);
    assert Apply(Apply(w, steps[0]), steps[1]) == w2;
    OtherLeads(w2, stalled, rest);
    FourSteps(w, steps);
  }

  lemma OtherLeads(w2: World, stalled: Instance, rest: Instance)
    requires rest == Instance(true, false, Resting, 0, 10000)
    requires stalled == rest.(phase := Renewing, until := 10000) && "a" != "b"
    requires w2 == World(10000, Some(HaElection.Lease("a", 10000)), map["a" := stalled, "b" := rest])
    ensures var w3 := Apply(w2, Set("b", true, true));
            && OnTime(w3, Expire("b", true))
            && BothLead(Apply(Apply(w3, Expire("b", true)), Expire("a", true)), "a", "b")
  {
    var w3 := Apply(w2, Set("b", true, true));
    assert w3.instances == map["a" := stalled, "b" := rest.(phase := Renewing, until := 20000)];
    var w4 := Apply(w3, Expire("b", true));
    assert w4.instances["a"] == stalled && w4.instances["b"] == rest.(leader := true, until := 20000);
  }

  lemma FourSteps(w: World, steps: seq<Step>)
    requires |steps| == 4 && forall k :: 0 <= k < 3 ==> !steps[k].Expire?
    ensures var w3 := Apply(Apply(Apply(w, steps[0]), steps[1]), steps[2]);
            Run(w, steps) == Apply(w3, steps[3]) && (Punctual(w, steps) <==> OnTime(w3, steps[3]))
  {
    hide Apply, Run, Punctual;
    StepTaken(w, steps, 0);
    StepTaken(w, steps, 1);
    StepTaken(w, steps, 2);
    StepTaken(w, steps, 3);
    assert steps[..4] == steps;
  }

  /** One tick with losses, when nobody comes in between: the instance leads afterwards if and only if its `SET` took
      the key and the answer arrived, or the answer to its `GET` named it. Whether `EXPIRE` arrives changes the
      lease only. */
  lemma LossyTick(w: World, i: InstanceId, setReached: bool, setReplied: bool, getReplied: bool, expireReached: bool)
    requires At(w, i, Resting) && w.instances[i].ttl > 0
    ensures var t := Apply(Apply(Apply(w, Set(i, setReached, setReplied)), Get(i, getReplied)), Expire(i, expireReached));
            var free := !HaElection.Present(w.key, w.now);
            var took := setReached && free;
            var lease := Some(HaElection.Lease(i, w.now + w.instances[i].ttl));
            && (t.instances[i].leader
                <==> (took && setReplied) || (getReplied && (took || (!free && w.key.value.holder == i))))
            && t.instances[i].phase == Resting
            && t.key == if took || (t.instances[i].leader && expireReached) then lease else w.key
  {
  }

  /** In any state: an unanswered `GET`, or one that names somebody else or nobody, demotes its sender. */
  lemma GetDemotes(w: World, i: InstanceId, replied: bool)
    requires At(w, i, Asking) && !(replied && HoldsKey(w, i))
    ensures !Apply(w, Get(i, replied)).LiveLeader(i) && At(Apply(w, Get(i, replied)), i, Resting)
  {
  }

  /** Run without interruption, the commands of one tick have the effect of the atomic tick. */
  lemma UninterruptedTick(w: World, i: InstanceId)
    requires At(w, i, Resting) && w.instances[i].ttl > 0
    ensures var t := Apply(Apply(Apply(w, Set(i, true, true)), Get(i, true)), Expire(i, true));
            (t.key, t.instances[i].leader) == HaElection.TickEffect(w.key, i, w.now, w.instances[i].ttl)
  {
  }
}

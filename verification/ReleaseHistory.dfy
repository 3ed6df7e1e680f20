/**
 Sequences of release runs (infrastructure/deployment/release_control.py): how a request is decided
 from the selected release and its predeclared rollback target, and what any history of executed,
 failed, cut off and refused runs does to the chain of rollback targets.
 */
module ReleaseHistory {
  import opened Basics
  import opened ReleaseControl
  import opened ReleaseEvidence

  datatype Request = Request(activate: bool, target: Option<string>, labels: Labels)

  /**
   What the preflight finds outside the descriptors: host readiness, the migration version, the
   releases whose configuration, evidence, credentials and directory are in place, the releases the
   first-release recovery evidence is bound to, and whether the run may mutate the host.
   */
  datatype Preflight = Preflight(
    hostReady: bool, version: Option<int>, ready: set<string>, recoverable: set<string>,
    execute: bool, authorised: bool)

  /** `compatibility_one`: the migration lies in the safe range and no down migration is allowed. */
  predicate Compatible(r: Release, version: int) {
    && r.database.minimumMigration <= version <= r.database.rollbackSafeThrough
    && !r.database.databaseRollbackAllowed
  }

  predicate Usable(r: Release, pf: Preflight) {
    pf.version.Some? && Compatible(r, pf.version.value) && r.id in pf.ready
  }

  /** An empty option value counts as absent. */
  function Given(o: Option<string>): Option<string> {
    if o == Some("") then None else o
  }

  /** Which transition is asked for, if it is one the descriptors declare. */
  function Transition(registry: Registry, current: Option<string>, request: Request): Decision {
    if current.Some? && current.value !in registry then Refused
    else
      var target := Given(request.target);
      if request.activate then
        if target.None? || target.value !in registry || registry[target.value].rollbackTarget != current then Refused
        else Activation(if current.Some? then Some(registry[current.value]) else None, registry[target.value])
      else if current.None? then Refused
      else
        var c := registry[current.value];
        var to := if target.Some? then target else c.rollbackTarget;
        if to.None? then Deactivation(c)
        else if c.rollbackTarget != to || to.value !in registry then Refused
        else Switch(c, registry[to.value])
  }

  predicate Admissible(d: Decision, pf: Preflight) {
    && pf.hostReady
    && match d
       case Refused => false
       case Activation(None, t) => Usable(t, pf) && t.id in pf.recoverable
       case Activation(Some(c), t) => Usable(t, pf) && Usable(c, pf)
       case Deactivation(c) => Usable(c, pf) && c.id in pf.recoverable
       case Switch(c, t) => Usable(t, pf) && Usable(c, pf)
  }

  function Decide(registry: Registry, current: Option<string>, request: Request, pf: Preflight): (d: Decision)
    ensures !d.Refused? ==> d == Transition(registry, current, request) && Admissible(d, pf)
  {
    var d := Transition(registry, current, request);
    if Admissible(d, pf) then d else Refused
  }

  /**
   When an activation is admitted, and what it then does: the named release is retained and declares the selected one as
   its rollback target; the host is ready; both releases support the migration, without down migrations, and are in place;
   and a first activation has its recovery evidence.
   */
  lemma ActivatesExactly(registry: Registry, current: Option<string>, request: Request, pf: Preflight)
    requires request.activate
    ensures !Decide(registry, current, request, pf).Refused? <==>
      && request.target.Some? && request.target.value != "" && request.target.value in registry
      && registry[request.target.value].rollbackTarget == current
      && pf.hostReady && pf.version.Some?
      && registry[request.target.value].database.minimumMigration <= pf.version.value
      && pf.version.value <= registry[request.target.value].database.rollbackSafeThrough
      && registry[request.target.value].database.databaseRollbackAllowed == false
      && request.target.value in pf.ready
      && (current.None? ==> request.target.value in pf.recoverable)
      && (current.Some? ==>
            && current.value in registry
            && registry[current.value].database.minimumMigration <= pf.version.value
            && pf.version.value <= registry[current.value].database.rollbackSafeThrough
            && registry[current.value].database.databaseRollbackAllowed == false
            && current.value in pf.ready)
    ensures
      var d := Decide(registry, current, request, pf);
      !d.Refused? ==> d == Activation(if current.Some? then Some(registry[current.value]) else None, registry[request.target.value])
  {
  }

  /**
   When a rollback is admitted, and what it then does: a release is selected and retained, no other target is named than
   the one it declares, and that one is retained; host, migration and releases are as for an activation; and undoing a
   first activation needs its recovery evidence.
   */
  lemma RollsBackExactly(registry: Registry, current: Option<string>, request: Request, pf: Preflight)
    requires !request.activate
    ensures !Decide(registry, current, request, pf).Refused? <==>
      && current.Some? && current.value in registry
      && (request.target == None || request.target == Some("") || request.target == registry[current.value].rollbackTarget)
      && pf.hostReady && pf.version.Some?
      && registry[current.value].database.minimumMigration <= pf.version.value
      && pf.version.value <= registry[current.value].database.rollbackSafeThrough
      && registry[current.value].database.databaseRollbackAllowed == false
      && current.value in pf.ready
      && match registry[current.value].rollbackTarget
         case None => current.value in pf.recoverable
         case Some(to) =>
           && to in registry
           && registry[to].database.minimumMigration <= pf.version.value
           && pf.version.value <= registry[to].database.rollbackSafeThrough
           && registry[to].database.databaseRollbackAllowed == false
           && to in pf.ready
    ensures
      var d := Decide(registry, current, request, pf);
      !d.Refused? ==>
        d == match registry[current.value].rollbackTarget
             case None => Deactivation(registry[current.value])
             case Some(to) => Switch(registry[current.value], registry[to])
  {
  }

  lemma DecidedKind(registry: Registry, current: Option<string>, request: Request, pf: Preflight)
    ensures
      var d := Decide(registry, current, request, pf);
      !d.Refused? ==> (d.Activation? <==> request.activate)
  {
  }

  // ----- histories -----

  /** One invocation: what was asked, what the preflight found, and the events of the run, if any. */
  datatype Attempt = Attempt(request: Request, preflight: Preflight, forward: seq<Event>, recovery: seq<Event>)

  /** The world right after an attempt; refused and dry runs perform nothing. */
  ghost predicate Attempted(registry: Registry, w: World, a: Attempt) {
    var d := Decide(registry, w.current, a.request, a.preflight);
    if d.Refused? || !a.preflight.execute || !a.preflight.authorised then a.forward == [] && a.recovery == []
    else IsRun(d, a.forward, a.recovery)
  }

  function After(w: World, a: Attempt): World {
    Replay(w, a.forward + a.recovery)
  }

  /** The attempt performed every step of a transition of the given kind. */
  ghost predicate Succeeded(registry: Registry, w: World, a: Attempt, activate: bool) {
    var d := Decide(registry, w.current, a.request, a.preflight);
    && Attempted(registry, w, a) && a.request.activate == activate
    && !d.Refused? && a.preflight.execute && a.preflight.authorised
    && Finished(Forward(d), a.forward)
  }

  /** Worlds before each attempt and after the last.  Between attempts services may come and go. */
  ghost predicate History(registry: Registry, worlds: seq<World>, attempts: seq<Attempt>) {
    && |worlds| == |attempts| + 1
    && forall i | 0 <= i < |attempts| ::
         && Attempted(registry, worlds[i], attempts[i])
         && worlds[i + 1].current == After(worlds[i], attempts[i]).current
         && worlds[i + 1].runtime == After(worlds[i], attempts[i]).runtime
  }

  /** Following rollback targets from `o` reaches "nothing selected" after exactly `n` releases. */
  predicate Chain(registry: Registry, o: Option<string>, n: nat)
    decreases n
  {
    if n == 0 then o == None
    else o.Some? && o.value in registry && Chain(registry, registry[o.value].rollbackTarget, n - 1)
  }

  lemma {:induction false} ChainIsUnique(registry: Registry, o: Option<string>, m: nat, n: nat)
    requires Chain(registry, o, m) && Chain(registry, o, n)
    ensures m == n
    decreases m
  {
    if m > 0 && n > 0 {
      ChainIsUnique(registry, registry[o.value].rollbackTarget, m - 1, n - 1);
    }
  }

  lemma DecisionConcerns(registry: Registry, w: World, request: Request, pf: Preflight)
    ensures
      var d := Decide(registry, w.current, request, pf);
      !d.Refused? ==> Concerns(d, w, registry)
  {
  }

  /** Where a decided transition leads, in terms of the chain. */
  lemma DestinationChain(registry: Registry, current: Option<string>, request: Request, pf: Preflight, n: nat)
    requires Chain(registry, current, n)
    requires !Decide(registry, current, request, pf).Refused?
    ensures
      var d := Decide(registry, current, request, pf);
      if request.activate then Chain(registry, Destination(d), n + 1) && d.Activation?
      else n > 0 && Chain(registry, Destination(d), n - 1) && !d.Activation?
  {
  }

  /**
   An attempt leaves the chain as it was or one step further in its own direction; a successful one
   has moved exactly that step.
   */
  lemma AttemptMovesChain(registry: Registry, w: World, a: Attempt, n: nat)
    requires Attempted(registry, w, a) && Chain(registry, w.current, n)
    ensures
      var o := After(w, a).current;
      || (o == w.current && Chain(registry, o, n))
      || (a.request.activate && Chain(registry, o, n + 1))
      || (!a.request.activate && n > 0 && Chain(registry, o, n - 1))
    ensures Succeeded(registry, w, a, true) ==> Chain(registry, After(w, a).current, n + 1)
    ensures Succeeded(registry, w, a, false) ==> n > 0 && Chain(registry, After(w, a).current, n - 1)
  {
    var d := Decide(registry, w.current, a.request, a.preflight);
    if d.Refused? || !a.preflight.execute || !a.preflight.authorised {
      assert a.forward + a.recovery == [];
    } else {
      DecisionConcerns(registry, w, a.request, a.preflight);
      DestinationChain(registry, w.current, a.request, a.preflight, n);
      hide Replay, Forward, Decide;
      RunLink(w, d, registry, a.forward, a.recovery);
    }
  }

  /**
   From an empty selection, any history of activations and rollbacks, including failed, cut off and
   refused ones, leaves a selected release whose rollback targets lead back to nothing, in exactly one
   number of steps.
   */
  lemma {:induction false} ChainIsAlwaysFinite(registry: Registry, worlds: seq<World>, attempts: seq<Attempt>) returns (n: nat)
    requires History(registry, worlds, attempts) && worlds[0].current == None
    ensures n <= |attempts| && Chain(registry, worlds[|attempts|].current, n)
    ensures forall m: nat | Chain(registry, worlds[|attempts|].current, m) :: m == n
    decreases |attempts|
  {
    hide Attempted, After;
    if attempts == [] {
      n := 0;
    } else {
      var last := |attempts| - 1;
      var m := ChainIsAlwaysFinite(registry, worlds[..last + 1], attempts[..last]);
      AttemptMovesChain(registry, worlds[last], attempts[last], m);
      var o := After(worlds[last], attempts[last]).current;
      n := if Chain(registry, o, m) then m else if Chain(registry, o, m + 1) then m + 1 else m - 1;
    }
    forall m: nat | Chain(registry, worlds[|attempts|].current, m)
      ensures m == n
    {
      ChainIsUnique(registry, worlds[|attempts|].current, m, n);
    }
  }

  lemma AttemptOf(registry: Registry, worlds: seq<World>, attempts: seq<Attempt>, i: nat)
    requires History(registry, worlds, attempts) && i < |attempts|
    ensures Attempted(registry, worlds[i], attempts[i])
    ensures worlds[i + 1].current == After(worlds[i], attempts[i]).current
  {
  }

  /** Repeated successful rollback reaches "nothing selected" after exactly chain-length runs. */
  lemma {:induction false} RollbacksReachNothing(registry: Registry, worlds: seq<World>, attempts: seq<Attempt>, n: nat)
    requires History(registry, worlds, attempts) && Chain(registry, worlds[0].current, n)
    requires forall i | 0 <= i < |attempts| :: Succeeded(registry, worlds[i], attempts[i], false)
    ensures |attempts| <= n && Chain(registry, worlds[|attempts|].current, n - |attempts|)
    ensures worlds[|attempts|].current == None <==> |attempts| == n
    decreases |attempts|
  {
    hide Attempted, Succeeded, After;
    if attempts != [] {
      var last := |attempts| - 1;
      RollbacksReachNothing(registry, worlds[..last + 1], attempts[..last], n);
      AttemptOf(registry, worlds, attempts, last);
      AttemptMovesChain(registry, worlds[last], attempts[last], n - last);
    }
  }

  /** A selected release can always be rolled back, as far as descriptors go, while its target is retained. */
  lemma RollbackIsDeclared(registry: Registry, current: string, n: nat, labels: Labels)
    requires Chain(registry, Some(current), n)
    ensures
      var d := Transition(registry, Some(current), Request(false, None, labels));
      && !d.Refused? && !d.Activation? && d.outgoing == registry[current]
      && Destination(d) == registry[current].rollbackTarget
  {
    assert n > 0;
    var next := registry[current].rollbackTarget;
    assert next.Some? ==> Chain(registry, next, n - 1) && n - 1 > 0;
  }

  // ----- the database stays compatible -----

  function Max(a: int, b: int): int { if a > b then a else b }
  function Min(a: int, b: int): int { if a < b then a else b }

  /**
   After an activation admitted at migration `v`, the preflight of the rollback that undoes it admits
   exactly the versions both releases support.  That includes `v` and every later version up to the
   smaller `rollback_safe_through`, so the rollback needs no down migration.
   */
  lemma RollbackStaysCompatible(registry: Registry, current: Option<string>, request: Request, pf: Preflight, later: Preflight, labels: Labels)
    requires request.activate && !Decide(registry, current, request, pf).Refused?
    requires later.hostReady && later.version.Some?
    requires
      var t := Decide(registry, current, request, pf).target;
      t.id in later.ready && (current.Some? ==> current.value in later.ready) && (current.None? ==> t.id in later.recoverable)
    ensures
      var d := Decide(registry, current, request, pf);
      var back := Decide(registry, Some(d.target.id), Request(false, None, labels), later);
      var v := later.version.value;
      var t := d.target.database;
      var low := if d.current.Some? then Max(t.minimumMigration, d.current.value.database.minimumMigration) else t.minimumMigration;
      var high := if d.current.Some? then Min(t.rollbackSafeThrough, d.current.value.database.rollbackSafeThrough) else t.rollbackSafeThrough;
      && (!back.Refused? <==> low <= v <= high)
      && (!back.Refused? ==> Destination(back) == current)
      && low <= pf.version.value <= high
  {
  }

  // ----- evidence that does not fit -----

  /** A successful activation whose labels do not fit: the target is live, and the exit code is 1 all the same. */
  lemma LiveButExitOne(registry: Registry, w: World, a: Attempt)
    requires Succeeded(registry, w, a, true) && !Fits(a.request.labels, true)
    ensures
      var d := Decide(registry, w.current, a.request, a.preflight);
      d.Activation? && EndsAs(d, a.forward, a.recovery, HealthGated) && Live(After(w, a), d.target)
    ensures ExitCode(HealthGated, Fits(a.request.labels, true)) == 1
  {
    hide Replay, Live, Forward, Recovery, Transition, Fits;
    var d := Decide(registry, w.current, a.request, a.preflight);
    DecidedKind(registry, w.current, a.request, a.preflight);
    EndsAfterForward(d, a.forward);
    NotBroken(Forward(d), a.forward);
    assert a.recovery == [];
    HealthGatedMeans(w, d, a.forward, a.recovery);
  }

  lemma NotBroken(script: seq<Step>, events: seq<Event>)
    requires Finished(script, events)
    ensures !Broken(script, events)
  {
  }

  /** Such a run, with the deployment id PROD-1: the first activation of any release in which every step succeeds. */
  lemma UnfitDeploymentId(r: Release, approval: string) returns (registry: Registry, w: World, a: Attempt)
    requires r.id != "" && r.rollbackTarget == None && Compatible(r, r.database.minimumMigration)
    ensures Succeeded(registry, w, a, true) && a.request.labels == Labels("PROD-1", approval)
    ensures Live(After(w, a), r) && !Fits(a.request.labels, true)
    ensures Written(a.request.labels, HealthGated, true) == {}
  {
    registry := map[r.id := r];
    w := World(None, None, {});
    var labels := Labels("PROD-1", approval);
    var request := Request(true, Some(r.id), labels);
    var pf := Preflight(true, Some(r.database.minimumMigration), {r.id}, {r.id}, true, true);
    var d := Activation(None, r);
    var script := Forward(d);
    var forward := seq(|script|, i requires 0 <= i < |script| => Event(script[i], true, false));
    a := Attempt(request, pf, forward, []);
    assert Decide(registry, None, request, pf) == d;
    hide Forward, Recovery, Decide;
    assert Finished(script, forward);
    NotBroken(script, forward);
    FitsExactly(labels, true);
    FitsExactly(labels, false);
    assert labels.deploymentId[0] == 'P';
    LiveButExitOne(registry, w, a);
  }
}

/**
 Activation, rollback and automatic recovery of a release
 (infrastructure/deployment/release_control.py), as scripts of steps over two symbolic links and a
 set of running services.  Every drain, stop, link, start, health or time-limit step can fail.

 A run performs its forward script up to the first failing step; an activation then performs its
 recovery script up to the first failing step.  `ReleaseHost` proves that the control program does
 exactly this; here are the meaning of the scripts and what holds at every failure point.
 */
module ReleaseControl {
  import opened Basics
  import opened ServiceOrder

  datatype Boundary = Boundary(
    minimumMigration: int, maximumMigration: int, rollbackSafeThrough: int, databaseRollbackAllowed: bool)

  /** A release descriptor.  Its links point at the release `id` and at `runtimeConfig`. */
  datatype Release = Release(
    id: string, services: seq<Service>, drains: bool,
    rollbackTarget: Option<string>, runtimeConfig: Option<string>, database: Boundary)

  /** The retained descriptors, each filed under its own release id. */
  type Registry = m: map<string, Release> | forall id | id in m :: m[id].id == id

  function Units(r: Release): set<string> {
    set s | s in r.services :: s.unit
  }

  // ----- steps and events -----

  datatype Step =
    | Drain(release: string)
    | Stop(unit: string)
    | LinkCurrent(to: Option<string>)
    | LinkRuntime(config: Option<string>)
    | Start(unit: string)
    | Health(release: string)
    | Deadline

  /** A step that was performed.  After a failed stop or start the unit may be `up` or not. */
  datatype Event = Event(step: Step, ok: bool, up: bool)

  datatype World = World(current: Option<string>, runtime: Option<string>, running: set<string>)

  function Apply(w: World, e: Event): World {
    match e.step
    case LinkCurrent(to) => if e.ok then w.(current := to) else w
    case LinkRuntime(config) => if e.ok then w.(runtime := config) else w
    case Stop(unit) => if e.ok || !e.up then w.(running := w.running - {unit}) else w
    case Start(unit) => if e.ok || e.up then w.(running := w.running + {unit}) else w.(running := w.running - {unit})
    case _ => w
  }

  function Replay(w: World, events: seq<Event>): World {
    if events == [] then w else Apply(Replay(w, events[..|events| - 1]), events[|events| - 1])
  }

  lemma ReplayOneMore(w: World, events: seq<Event>, e: Event)
    ensures Replay(w, events + [e]) == Apply(Replay(w, events), e)
  {
    assert (events + [e])[..|events|] == events;
  }

  lemma {:induction false} ReplayAppend(w: World, a: seq<Event>, b: seq<Event>)
    ensures Replay(w, a + b) == Replay(Replay(w, a), b)
    decreases |b|
  {
    if b == [] {
      assert a + b == a;
    } else {
      var n := |b| - 1;
      ReplayAppend(w, a, b[..n]);
      assert a + b == a + b[..n] + [b[n]];
      ReplayOneMore(w, a + b[..n], b[n]);
    }
  }

  // ----- performing a script -----

  /** `events` follow `script`, and no step is tried after a failed one. */
  ghost predicate Runs(script: seq<Step>, events: seq<Event>) {
    && |events| <= |script|
    && (forall i | 0 <= i < |events| :: events[i].step == script[i])
    && (forall i | 0 <= i < |events| - 1 :: events[i].ok)
  }

  ghost predicate Finished(script: seq<Step>, events: seq<Event>) {
    && |events| == |script|
    && forall i | 0 <= i < |events| :: events[i].step == script[i] && events[i].ok
  }

  ghost predicate Broken(script: seq<Step>, events: seq<Event>) {
    Runs(script, events) && events != [] && !events[|events| - 1].ok
  }

  lemma RunsInTwoParts(a: seq<Step>, ea: seq<Event>, b: seq<Step>, eb: seq<Event>)
    ensures Finished(a, ea) && Finished(b, eb) ==> Finished(a + b, ea + eb)
    ensures Finished(a, ea) && Broken(b, eb) ==> Broken(a + b, ea + eb)
    ensures Broken(a, ea) ==> Broken(a + b, ea)
  {
  }

  // ----- the scripts -----

  function StopScript(r: Release, drain: bool): seq<Step> {
    (if drain && r.drains then [Drain(r.id)] else []) + Stops(Sorted(r.services, true))
  }

  function Stops(services: seq<Service>): seq<Step> {
    seq(|services|, i requires 0 <= i < |services| => Stop(services[i].unit))
  }

  function Starts(services: seq<Service>): seq<Step> {
    seq(|services|, i requires 0 <= i < |services| => Start(services[i].unit))
  }

  function StartScript(r: Release): seq<Step> {
    Starts(Sorted(r.services, false)) + [Health(r.id)]
  }

  function SelectScript(r: Release): seq<Step> {
    [LinkCurrent(Some(r.id)), LinkRuntime(r.runtimeConfig)]
  }

  function SwitchScript(r: Release): seq<Step> {
    SelectScript(r) + StartScript(r)
  }

  const ClearScript: seq<Step> := [LinkCurrent(None), LinkRuntime(None)]

  /** What the control program was asked for and has found admissible. */
  datatype Decision =
    | Refused
    | Activation(current: Option<Release>, target: Release)
    | Deactivation(outgoing: Release)
    | Switch(outgoing: Release, target: Release)

  function StopCurrent(d: Decision): seq<Step>
    requires !d.Refused?
  {
    match d
    case Activation(None, _) => []
    case Activation(Some(c), _) => StopScript(c, true)
    case Deactivation(c) => StopScript(c, true)
    case Switch(c, _) => StopScript(c, true)
  }

  function AfterStop(d: Decision): seq<Step>
    requires !d.Refused?
  {
    match d
    case Activation(_, t) => SwitchScript(t) + [Deadline]
    case Deactivation(_) => ClearScript
    case Switch(_, t) => SwitchScript(t)
  }

  function Forward(d: Decision): seq<Step>
    requires !d.Refused?
  {
    StopCurrent(d) + AfterStop(d)
  }

  /** The automatic recovery of a failed activation. */
  function AfterRecoveryStop(d: Decision): seq<Step>
    requires d.Activation?
  {
    match d.current
    case None => ClearScript
    case Some(c) => SwitchScript(c)
  }

  function Recovery(d: Decision): seq<Step>
    requires d.Activation?
  {
    StopScript(d.target, false) + AfterRecoveryStop(d)
  }

  /** The events of a run: to its end, or cut off at any step. */
  ghost predicate IsRun(d: Decision, forward: seq<Event>, recovery: seq<Event>) {
    && !d.Refused?
    && Runs(Forward(d), forward)
    && (if d.Activation? && Broken(Forward(d), forward) then Runs(Recovery(d), recovery) else recovery == [])
  }

  datatype Outcome = HealthGated | RolledBack | ActivationFailed | RollbackPassed | RollbackFailed | EvidenceRejected

  /**
   The outcome of a run that reached its end.  The evidence of a failed rollback is rejected by its
   own schema as soon as it contains the timed records of completed stops.
   */
  ghost predicate EndsAs(d: Decision, forward: seq<Event>, recovery: seq<Event>, outcome: Outcome) {
    && IsRun(d, forward, recovery)
    && match outcome
       case HealthGated => d.Activation? && Finished(Forward(d), forward)
       case RolledBack => d.Activation? && Broken(Forward(d), forward) && Finished(Recovery(d), recovery)
       case ActivationFailed => d.Activation? && Broken(Forward(d), forward) && Broken(Recovery(d), recovery)
       case RollbackPassed => !d.Activation? && Finished(Forward(d), forward)
       case RollbackFailed =>
         !d.Activation? && Broken(Forward(d), forward) && (|forward| <= |StopCurrent(d)| || StopCurrent(d) == [])
       case EvidenceRejected =>
         !d.Activation? && Broken(Forward(d), forward) && |forward| > |StopCurrent(d)| > 0
  }

  lemma EndsAfterForward(d: Decision, forward: seq<Event>)
    requires !d.Refused? && Finished(Forward(d), forward)
    ensures EndsAs(d, forward, [], if d.Activation? then HealthGated else RollbackPassed)
  {
    hide Forward, Recovery, StopCurrent;
  }

  lemma EndsInRollback(d: Decision, forward: seq<Event>)
    requires !d.Refused? && !d.Activation? && Broken(Forward(d), forward)
    ensures EndsAs(d, forward, [], if |forward| > |StopCurrent(d)| > 0 then EvidenceRejected else RollbackFailed)
  {
    hide Forward, Recovery, StopCurrent;
  }

  lemma EndsAfterRecovery(d: Decision, forward: seq<Event>, recovery: seq<Event>, ok: bool)
    requires d.Activation? && Broken(Forward(d), forward)
    requires if ok then Finished(Recovery(d), recovery) else Broken(Recovery(d), recovery)
    ensures EndsAs(d, forward, recovery, if ok then RolledBack else ActivationFailed)
  {
    hide Forward, Recovery, StopCurrent;
  }

  /** The exit code, where `fits` says whether the evidence documents admit the labels they are given. */
  function ExitCode(outcome: Outcome, fits: bool): int {
    if !fits then 1 else
    match outcome
    case HealthGated | RollbackPassed => 0
    case RolledBack | ActivationFailed => 3
    case RollbackFailed => 4
    case EvidenceRejected => 1
  }

  // ----- stopping and starting -----

  /** Steps that touch neither link. */
  predicate KeepsLinks(script: seq<Step>) {
    forall i | 0 <= i < |script| :: !script[i].LinkCurrent? && !script[i].LinkRuntime?
  }

  lemma {:induction false} LinksKept(w: World, events: seq<Event>)
    requires forall i | 0 <= i < |events| :: !events[i].step.LinkCurrent? && !events[i].step.LinkRuntime?
    ensures Replay(w, events).current == w.current && Replay(w, events).runtime == w.runtime
  {
    if events != [] {
      LinksKept(w, events[..|events| - 1]);
    }
  }

  lemma ScriptsKeepLinks(r: Release, drain: bool)
    ensures KeepsLinks(StopScript(r, drain)) && KeepsLinks(StartScript(r)) && KeepsLinks(StartScript(r) + [Deadline])
  {
  }

  /** A unit that is stopped at some point and not started afterwards is down. */
  lemma {:induction false} StoppedIsDown(w: World, events: seq<Event>, i: nat, unit: string)
    requires i < |events| && events[i].step == Stop(unit) && events[i].ok
    requires forall j | i < j < |events| :: events[j].step != Start(unit)
    ensures unit !in Replay(w, events).running
  {
    if i < |events| - 1 {
      StoppedIsDown(w, events[..|events| - 1], i, unit);
    }
  }

  /** A unit that is started at some point and not stopped afterwards is up. */
  lemma {:induction false} StartedIsUp(w: World, events: seq<Event>, i: nat, unit: string)
    requires i < |events| && events[i].step == Start(unit) && events[i].ok
    requires forall j | i < j < |events| :: events[j].step != Stop(unit) && (events[j].step == Start(unit) ==> events[j].ok)
    ensures unit in Replay(w, events).running
  {
    if i < |events| - 1 {
      StartedIsUp(w, events[..|events| - 1], i, unit);
    }
  }

  /** A completed stop leaves both links alone and none of the release's services running. */
  lemma StopClears(w: World, r: Release, drain: bool, events: seq<Event>)
    requires Finished(StopScript(r, drain), events)
    ensures Replay(w, events).current == w.current && Replay(w, events).runtime == w.runtime
    ensures Units(r) !! Replay(w, events).running
  {
    hide Replay, StopScript, Sorted;
    ScriptsKeepLinks(r, drain);
    LinksKept(w, events);
    forall u | u in Units(r)
      ensures u !in Replay(w, events).running
    {
      var i := StopOf(r, drain, u);
      StoppedIsDown(w, events, i, u);
    }
  }

  /** The step that stops a unit; a stop script starts nothing. */
  lemma StopOf(r: Release, drain: bool, u: string) returns (i: nat)
    requires u in Units(r)
    ensures i < |StopScript(r, drain)| && StopScript(r, drain)[i] == Stop(u)
    ensures forall j | 0 <= j < |StopScript(r, drain)| :: !StopScript(r, drain)[j].Start?
  {
    hide Sorted;
    var order := Sorted(r.services, true);
    SortedHasSame(r.services, true);
    var s :| s in r.services && s.unit == u;
    var k :| 0 <= k < |order| && order[k] == s;
    i := |StopScript(r, drain)| - |order| + k;
  }

  /** A completed start leaves both links alone and all of the release's services running. */
  lemma StartRaises(w: World, r: Release, events: seq<Event>)
    requires Finished(StartScript(r), events)
    ensures Replay(w, events).current == w.current && Replay(w, events).runtime == w.runtime
    ensures Units(r) <= Replay(w, events).running
  {
    hide Replay, Sorted;
    ScriptsKeepLinks(r, true);
    LinksKept(w, events);
    var order := Sorted(r.services, false);
    SortedHasSame(r.services, false);
    forall u | u in Units(r)
      ensures u in Replay(w, events).running
    {
      var s :| s in r.services && s.unit == u;
      var i :| 0 <= i < |order| && order[i] == s;
      assert StartScript(r)[i] == Start(u);
      StartedIsUp(w, events, i, u);
    }
  }

  /** The two link steps alone. */
  lemma LinksSet(w: World, events: seq<Event>, to: Option<string>, config: Option<string>)
    requires Finished([LinkCurrent(to), LinkRuntime(config)], events)
    ensures Replay(w, events) == w.(current := to, runtime := config)
  {
    assert events[..1] == [events[0]] && [events[0]][..0] == [];
    assert Replay(w, []) == w;
    assert Replay(w, [events[0]]) == Apply(w, events[0]);
  }

  lemma FinishedSplit(a: seq<Step>, b: seq<Step>, events: seq<Event>)
    requires Finished(a + b, events)
    ensures Finished(a, events[..|a|]) && Finished(b, events[|a|..])
    ensures events == events[..|a|] + events[|a|..]
  {
    assert forall i | 0 <= i < |b| :: (a + b)[|a| + i] == b[i];
  }

  /** A release that is selected by both links and whose services all run. */
  predicate Live(w: World, r: Release) {
    w.current == Some(r.id) && w.runtime == r.runtimeConfig && Units(r) <= w.running
  }

  /** Nothing is selected and none of the release's services runs. */
  predicate Cleared(w: World, r: Release) {
    w.current == None && w.runtime == None && Units(r) !! w.running
  }

  /** The event at position `i` is a passed health gate of the release. */
  predicate Healthy(events: seq<Event>, i: int, r: Release) {
    0 <= i < |events| && events[i].step == Health(r.id) && events[i].ok
  }

  lemma Switches(w: World, r: Release, events: seq<Event>)
    requires Finished(SwitchScript(r), events)
    ensures Live(Replay(w, events), r) && Healthy(events, |events| - 1, r)
  {
    FinishedSplit(SelectScript(r), StartScript(r), events);
    var links, starts := events[..2], events[2..];
    ReplayAppend(w, links, starts);
    LinksSet(w, links, Some(r.id), r.runtimeConfig);
    StartRaises(Replay(w, links), r, starts);
    assert events[|events| - 1] == starts[|starts| - 1];
  }

  /** Selecting and starting a release, after anything: links set, services up, healthy last. */
  lemma SwitchesAfter(w: World, before: seq<Step>, r: Release, events: seq<Event>)
    requires Finished(before + SwitchScript(r), events)
    ensures Live(Replay(w, events), r) && Healthy(events, |events| - 1, r)
  {
    hide Replay, SwitchScript, Live;
    FinishedSplit(before, SwitchScript(r), events);
    var first, second := events[..|before|], events[|before|..];
    ReplayAppend(w, first, second);
    Switches(Replay(w, first), r, second);
    assert events[|events| - 1] == second[|second| - 1];
  }

  /** Stopping a release and clearing both links. */
  lemma ClearsAfter(w: World, r: Release, drain: bool, events: seq<Event>)
    requires Finished(StopScript(r, drain) + ClearScript, events)
    ensures Cleared(Replay(w, events), r)
  {
    hide Replay, StopScript, Units;
    var stop := StopScript(r, drain);
    FinishedSplit(stop, ClearScript, events);
    ReplayAppend(w, events[..|stop|], events[|stop|..]);
    StopClears(w, r, drain, events[..|stop|]);
    LinksSet(Replay(w, events[..|stop|]), events[|stop|..], None, None);
  }

  // ----- the order of a run's steps -----

  function Leaving(d: Decision): Option<Release> {
    match d
    case Refused => None
    case Activation(c, _) => c
    case Deactivation(c) => Some(c)
    case Switch(c, _) => Some(c)
  }

  function Entering(d: Decision): Option<Release> {
    if d.Activation? || d.Switch? then Some(d.target) else None
  }

  function StepsOf(events: seq<Event>): seq<Step> {
    seq(|events|, i requires 0 <= i < |events| => events[i].step)
  }

  /** The release lists both units, the first with a start order that is not the greater one. */
  ghost predicate Before(r: Release, u: string, v: string) {
    exists s, t | s in r.services && t in r.services :: s.unit == u && t.unit == v && s.startOrder <= t.startOrder
  }

  /**
   Only units of the leaving release are stopped, the highest start order first; only units of the entering release are
   started, the lowest first; nothing is stopped after a start, and nothing is drained but the leaving release, first.
   */
  ghost predicate InOrder(steps: seq<Step>, leaving: Option<Release>, entering: Option<Release>) {
    && (forall i | 0 <= i < |steps| ::
          && (steps[i].Stop? ==> leaving.Some? && steps[i].unit in Units(leaving.value))
          && (steps[i].Start? ==> entering.Some? && steps[i].unit in Units(entering.value))
          && (steps[i].Drain? ==> i == 0 && leaving.Some? && leaving.value.drains && steps[i].release == leaving.value.id))
    && (forall i, j | 0 <= i < j < |steps| ::
          && (steps[i].Stop? && steps[j].Stop? ==> Before(leaving.value, steps[j].unit, steps[i].unit))
          && (steps[i].Start? && steps[j].Start? ==> Before(entering.value, steps[i].unit, steps[j].unit))
          && !(steps[i].Start? && steps[j].Stop?))
  }

  lemma StopsInOrder(r: Release, drain: bool, entering: Option<Release>)
    ensures InOrder(StopScript(r, drain), Some(r), entering)
  {
    hide Sorted;
    var order, script := Sorted(r.services, true), StopScript(r, drain);
    var n := |script| - |order|;
    SortedHasSame(r.services, true);
    forall i | 0 <= i < |script| && script[i].Stop?
      ensures i >= n && script[i] == Stop(order[i - n].unit) && order[i - n] in r.services
    {
    }
    forall i, j | 0 <= i < j < |script| && script[i].Stop? && script[j].Stop?
      ensures Before(r, script[j].unit, script[i].unit)
    {
      SortedDirections(r.services, i - n, j - n);
    }
  }

  lemma SwitchSteps(r: Release, order: seq<Service>, more: seq<Step>)
    requires order == Sorted(r.services, false) && (more == [] || more == [Deadline])
    ensures
      var script := SwitchScript(r) + more;
      forall i | 0 <= i < |script| ::
        && !script[i].Stop? && !script[i].Drain?
        && (script[i].Start? ==> 2 <= i < 2 + |order| && script[i] == Start(order[i - 2].unit))
  {
    hide Sorted;
  }

  lemma StartsInOrder(r: Release, leaving: Option<Release>, more: seq<Step>)
    requires more == [] || more == [Deadline]
    ensures InOrder(SwitchScript(r) + more, leaving, Some(r))
    ensures forall i | 0 <= i < |SwitchScript(r) + more| :: !(SwitchScript(r) + more)[i].Stop? && !(SwitchScript(r) + more)[i].Drain?
  {
    hide Sorted, SwitchScript;
    var order, script := Sorted(r.services, false), SwitchScript(r) + more;
    SortedHasSame(r.services, false);
    SwitchSteps(r, order, more);
    forall i, j | 0 <= i < j < |script| && script[i].Start? && script[j].Start?
      ensures Before(r, script[i].unit, script[j].unit)
    {
      SortedDirections(r.services, i - 2, j - 2);
    }
  }

  lemma InOrderJoins(a: seq<Step>, b: seq<Step>, leaving: Option<Release>, entering: Option<Release>)
    requires InOrder(a, leaving, entering) && InOrder(b, leaving, entering)
    requires forall i | 0 <= i < |a| :: !a[i].Start?
    requires forall i | 0 <= i < |b| :: !b[i].Stop? && !b[i].Drain?
    ensures InOrder(a + b, leaving, entering)
  {
    hide Before, Units;
  }

  lemma StopsStartNothing(r: Release, drain: bool)
    ensures forall i | 0 <= i < |StopScript(r, drain)| :: !StopScript(r, drain)[i].Start?
    ensures !drain ==> forall i | 0 <= i < |StopScript(r, drain)| :: !StopScript(r, drain)[i].Drain?
  {
    hide Sorted;
  }

  lemma ForwardInOrder(d: Decision)
    requires !d.Refused?
    ensures InOrder(Forward(d), Leaving(d), Entering(d))
  {
    if Leaving(d).Some? {
      StopsInOrder(Leaving(d).value, true, Entering(d));
      StopsStartNothing(Leaving(d).value, true);
    }
    if Entering(d).Some? {
      var more := if d.Activation? then [Deadline] else [];
      StartsInOrder(d.target, Leaving(d), more);
      assert AfterStop(d) == SwitchScript(d.target) + more;
    }
    hide InOrder, StopScript, SwitchScript;
    assert InOrder(AfterStop(d), Leaving(d), Entering(d)) by { ClearInOrder(Leaving(d), Entering(d)); }
    assert InOrder(StopCurrent(d), Leaving(d), Entering(d)) by { NothingInOrder(Leaving(d), Entering(d)); }
    InOrderJoins(StopCurrent(d), AfterStop(d), Leaving(d), Entering(d));
  }

  lemma ClearInOrder(leaving: Option<Release>, entering: Option<Release>)
    ensures InOrder(ClearScript, leaving, entering)
  {
  }

  lemma NothingInOrder(leaving: Option<Release>, entering: Option<Release>)
    ensures InOrder([], leaving, entering)
  {
  }

  lemma RecoveryInOrder(d: Decision)
    requires d.Activation?
    ensures InOrder(Recovery(d), Some(d.target), d.current)
    ensures forall i | 0 <= i < |Recovery(d)| :: !Recovery(d)[i].Drain?
  {
    StopsInOrder(d.target, false, d.current);
    StopsStartNothing(d.target, false);
    if d.current.Some? {
      StartsInOrder(d.current.value, Some(d.target), []);
      assert SwitchScript(d.current.value) + [] == SwitchScript(d.current.value);
    }
    hide InOrder, StopScript, SwitchScript;
    assert InOrder(AfterRecoveryStop(d), Some(d.target), d.current) by { ClearInOrder(Some(d.target), d.current); }
    InOrderJoins(StopScript(d.target, false), AfterRecoveryStop(d), Some(d.target), d.current);
  }

  lemma PrefixInOrder(script: seq<Step>, events: seq<Event>, leaving: Option<Release>, entering: Option<Release>)
    requires Runs(script, events) && InOrder(script, leaving, entering)
    ensures InOrder(StepsOf(events), leaving, entering)
  {
    hide Before, Units;
    assert forall i | 0 <= i < |events| :: StepsOf(events)[i] == script[i];
  }

  /** At every failure point, the steps of a run and of its recovery are in this order, and recovery drains nothing. */
  lemma RunsInOrder(d: Decision, forward: seq<Event>, recovery: seq<Event>)
    requires IsRun(d, forward, recovery)
    ensures InOrder(StepsOf(forward), Leaving(d), Entering(d))
    ensures recovery != [] ==> InOrder(StepsOf(recovery), Entering(d), Leaving(d))
    ensures forall i | 0 <= i < |recovery| :: !recovery[i].step.Drain?
  {
    ForwardInOrder(d);
    hide InOrder, Forward, Recovery;
    PrefixInOrder(Forward(d), forward, Leaving(d), Entering(d));
    if recovery != [] {
      RecoveryInOrder(d);
      PrefixInOrder(Recovery(d), recovery, Entering(d), Leaving(d));
    }
  }

  /**
   An outgoing release that can be drained is drained before anything else, once, and nothing is stopped, linked or
   started unless that drain succeeded.  A release is drained in no other case, and never during recovery.
   */
  lemma DrainsFirst(d: Decision, c: Release, forward: seq<Event>, recovery: seq<Event>)
    requires IsRun(d, forward, recovery)
    requires if d.Activation? then d.current == Some(c) else d.outgoing == c
    ensures c.drains && forward != [] ==> forward[0].step == Drain(c.id)
    ensures c.drains && |forward| > 1 ==> forward[0].ok
    ensures c.drains && |forward| == 1 && !forward[0].ok ==> forall w :: Replay(w, forward) == w
    ensures forall i | 0 <= i < |forward| :: forward[i].step.Drain? ==> i == 0 && c.drains
    ensures forall i | 0 <= i < |recovery| :: !recovery[i].step.Drain?
  {
    RunsInOrder(d, forward, recovery);
    assert forall i | 0 <= i < |forward| :: StepsOf(forward)[i] == forward[i].step;
    if c.drains && forward != [] {
      assert Forward(d)[0] == Drain(c.id) by { hide Sorted; }
      if |forward| == 1 && !forward[0].ok {
        forall w
          ensures Replay(w, forward) == w
        {
          assert forward[..0] == [];
        }
      }
    }
  }

  // ----- what outcomes mean -----

  /** An activation that exits 0: target selected, services started in order, healthy, in time. */
  lemma HealthGatedMeans(w: World, d: Decision, forward: seq<Event>, recovery: seq<Event>)
    requires EndsAs(d, forward, recovery, HealthGated)
    ensures Live(Replay(w, forward + recovery), d.target)
    ensures Healthy(forward, |forward| - 2, d.target)
    ensures forward[|forward| - 1].step == Deadline && forward[|forward| - 1].ok
  {
    assert forward + recovery == forward;
    hide StopCurrent, SwitchScript, Live, Finished;
    var switch := StopCurrent(d) + SwitchScript(d.target);
    assert Forward(d) == switch + [Deadline];
    FinishedSplit(switch, [Deadline], forward);
    SwitchesAfter(w, StopCurrent(d), d.target, forward[..|switch|]);
    DeadlineLast(w, switch, forward);
  }

  lemma DeadlineLast(w: World, script: seq<Step>, events: seq<Event>)
    requires Finished(script + [Deadline], events)
    ensures |events| == |script| + 1 && events[|script|].step == Deadline && events[|script|].ok
    ensures Replay(w, events) == Replay(w, events[..|script|])
  {
    assert (script + [Deadline])[|script|] == Deadline;
  }

  /** A rolled back activation: the prior link pair restored and healthy, or both links cleared. */
  lemma RolledBackMeans(w: World, d: Decision, forward: seq<Event>, recovery: seq<Event>)
    requires EndsAs(d, forward, recovery, RolledBack)
    ensures match d.current
      case None => Cleared(Replay(w, forward + recovery), d.target)
      case Some(c) => Live(Replay(w, forward + recovery), c) && Healthy(recovery, |recovery| - 1, c)
  {
    hide Live, Cleared, Replay, Forward, StopScript, SwitchScript;
    ReplayAppend(w, forward, recovery);
    if d.current.None? {
      ClearsAfter(Replay(w, forward), d.target, false, recovery);
    } else {
      SwitchesAfter(Replay(w, forward), StopScript(d.target, false), d.current.value, recovery);
    }
  }

  /**
   The outcome of an activation can be read off its last events: it passed exactly when the time
   limit held at the end, it was rolled back exactly when recovery ended with the prior release's
   health gate (or, for a first release, with cleared links), and it failed exactly when a step of
   the recovery itself failed.  The exit code tells them apart exactly if the evidence fits its schemas.
   */
  lemma ActivationOutcomes(d: Decision, forward: seq<Event>, recovery: seq<Event>, outcome: Outcome, fits: bool)
    requires EndsAs(d, forward, recovery, outcome) && d.Activation?
    ensures forward != []
    ensures outcome == HealthGated <==> forward[|forward| - 1].ok
    ensures outcome == HealthGated <==> recovery == []
    ensures outcome == RolledBack <==>
      recovery != [] && recovery[|recovery| - 1].ok &&
      match d.current
      case None => recovery[|recovery| - 1].step == LinkRuntime(None)
      case Some(c) => Healthy(recovery, |recovery| - 1, c)
    ensures outcome == ActivationFailed <==> recovery != [] && !recovery[|recovery| - 1].ok
    ensures ExitCode(outcome, fits) == 0 <==> fits && outcome == HealthGated
    ensures ExitCode(outcome, fits) == 3 <==> fits && outcome != HealthGated
    ensures ExitCode(outcome, fits) == 1 <==> !fits
  {
    hide StopScript, Sorted, SelectScript, Starts;
    var script := Recovery(d);
    assert script[|script| - 1] == AfterRecoveryStop(d)[|AfterRecoveryStop(d)| - 1];
  }

  /**
   The exit code of a rollback can be read off its last event and how far it got: failed evidence and exit 4 exactly
   when the rollback failed while stopping the outgoing release, or had nothing to stop, and its evidence fits.  After a
   completed stop the evidence of a failure is rejected, and the program ends with an exception.
   */
  lemma RollbackOutcomes(d: Decision, forward: seq<Event>, recovery: seq<Event>, outcome: Outcome, fits: bool)
    requires EndsAs(d, forward, recovery, outcome) && !d.Activation?
    ensures forward != [] && recovery == []
    ensures ExitCode(outcome, fits) == 0 <==> fits && forward[|forward| - 1].ok
    ensures ExitCode(outcome, fits) == 4 <==>
      fits && !forward[|forward| - 1].ok && (|forward| <= |StopCurrent(d)| || StopCurrent(d) == [])
    ensures ExitCode(outcome, fits) == 1 <==>
      !fits || (!forward[|forward| - 1].ok && |forward| > |StopCurrent(d)| > 0)
  {
    hide StopCurrent, StartScript;
    assert |Forward(d)| > 0;
  }

  /** Such a run: the only service of the outgoing release stops, and then the link cannot be moved. */
  lemma RollbackCanBeRejected(r: Release, s: Service) returns (forward: seq<Event>)
    requires r.services == [s] && !r.drains
    ensures EndsAs(Deactivation(r), forward, [], EvidenceRejected)
    ensures ExitCode(EvidenceRejected, true) == 1
  {
    var d := Deactivation(r);
    assert Sorted([s], true) == [s] by { assert [s][1..] == []; }
    assert StopCurrent(d) == [Stop(s.unit)];
    forward := [Event(Stop(s.unit), true, false), Event(LinkCurrent(None), false, false)];
    assert Forward(d) == [Stop(s.unit), LinkCurrent(None), LinkRuntime(None)];
  }

  /** A passed rollback: the target selected and healthy, or the first release deactivated. */
  lemma RollbackPassedMeans(w: World, d: Decision, forward: seq<Event>, recovery: seq<Event>)
    requires EndsAs(d, forward, recovery, RollbackPassed)
    ensures d.Deactivation? ==> Cleared(Replay(w, forward + recovery), d.outgoing)
    ensures d.Switch? ==> Live(Replay(w, forward + recovery), d.target) && Healthy(forward, |forward| - 1, d.target)
  {
    hide Live, Cleared, Replay, StopScript, SwitchScript;
    assert forward + recovery == forward;
    if d.Deactivation? {
      ClearsAfter(w, d.outgoing, true, forward);
    } else {
      SwitchesAfter(w, StopScript(d.outgoing, true), d.target, forward);
    }
  }

  // ----- the current link, at every failure point -----

  function Destination(d: Decision): Option<string>
    requires !d.Refused?
  {
    if d.Deactivation? then None else Some(d.target.id)
  }

  /** The decision was made about this world. */
  predicate Concerns(d: Decision, w: World, registry: Registry) {
    match d
    case Refused => false
    case Activation(None, t) => w.current == None && t.id in registry && registry[t.id] == t
    case Activation(Some(c), t) =>
      w.current == Some(c.id) && c.id in registry && registry[c.id] == c && t.id in registry && registry[t.id] == t
    case Deactivation(c) => w.current == Some(c.id) && c.id in registry && registry[c.id] == c
    case Switch(c, t) => w.current == Some(c.id) && c.id in registry && registry[c.id] == c
  }

  /** Exactly one step of the script, at position `at`, moves the current link. */
  ghost predicate LinksOnce(script: seq<Step>, at: nat, to: Option<string>) {
    && at < |script| && script[at] == LinkCurrent(to)
    && forall i | 0 <= i < |script| :: script[i].LinkCurrent? <==> i == at
  }

  lemma LinksOnceAfter(a: seq<Step>, b: seq<Step>, to: Option<string>)
    requires KeepsLinks(a) && LinksOnce(b, 0, to)
    ensures LinksOnce(a + b, |a|, to)
  {
  }

  lemma SelectLinksOnce(r: Release, more: seq<Step>)
    requires KeepsLinks(more)
    ensures LinksOnce(SelectScript(r) + more, 0, Some(r.id))
  {
  }

  /** In each script exactly one step moves the current link, right after the stop part. */
  lemma ForwardLinksOnce(d: Decision)
    requires !d.Refused?
    ensures LinksOnce(Forward(d), |StopCurrent(d)|, Destination(d))
  {
    if d.Activation? {
      ScriptsKeepLinks(d.target, true);
      SelectLinksOnce(d.target, StartScript(d.target) + [Deadline]);
      assert AfterStop(d) == SelectScript(d.target) + (StartScript(d.target) + [Deadline]);
    } else if d.Switch? {
      ScriptsKeepLinks(d.target, true);
      SelectLinksOnce(d.target, StartScript(d.target));
    }
    if d.Activation? && d.current.Some? {
      ScriptsKeepLinks(d.current.value, true);
    } else if !d.Activation? {
      ScriptsKeepLinks(d.outgoing, true);
    }
    hide StopScript, StartScript, SelectScript;
    LinksOnceAfter(StopCurrent(d), AfterStop(d), Destination(d));
  }

  lemma RecoveryLinksOnce(d: Decision, prior: Option<string>)
    requires d.Activation?
    requires prior == if d.current.Some? then Some(d.current.value.id) else None
    ensures LinksOnce(Recovery(d), |StopScript(d.target, false)|, prior)
  {
    ScriptsKeepLinks(d.target, false);
    if d.current.Some? {
      ScriptsKeepLinks(d.current.value, true);
      SelectLinksOnce(d.current.value, StartScript(d.current.value));
    }
    hide StopScript, StartScript, SelectScript;
    LinksOnceAfter(StopScript(d.target, false), AfterRecoveryStop(d), prior);
  }

  /** The current link after any number of steps is where it was or where the only link step puts it. */
  lemma {:induction false} LinkAfter(w: World, events: seq<Event>, at: nat, to: Option<string>)
    requires forall i | 0 <= i < |events| :: events[i].step.LinkCurrent? <==> i == at
    requires at < |events| ==> events[at].step.to == to
    ensures Replay(w, events).current == if at < |events| && events[at].ok then to else w.current
  {
    if events != [] {
      LinkAfter(w, events[..|events| - 1], at, to);
    }
  }

  lemma ForwardLink(w: World, d: Decision, forward: seq<Event>)
    requires !d.Refused? && Runs(Forward(d), forward)
    ensures Replay(w, forward).current in {w.current, Destination(d)}
    ensures |forward| <= |StopCurrent(d)| ==> Replay(w, forward).current == w.current
    ensures Finished(Forward(d), forward) ==> Replay(w, forward).current == Destination(d)
  {
    ForwardLinksOnce(d);
    hide Forward, StopCurrent;
    LinkAfter(w, forward, |StopCurrent(d)|, Destination(d));
  }

  lemma RecoveryLink(w: World, d: Decision, recovery: seq<Event>, prior: Option<string>)
    requires d.Activation? && Runs(Recovery(d), recovery)
    requires prior == if d.current.Some? then Some(d.current.value.id) else None
    ensures Replay(w, recovery).current in {w.current, prior}
    ensures |recovery| <= |StopScript(d.target, false)| ==> Replay(w, recovery).current == w.current
    ensures Finished(Recovery(d), recovery) ==> Replay(w, recovery).current == prior
  {
    var at := |StopScript(d.target, false)|;
    RecoveryLinksOnce(d, prior);
    hide Recovery, StopScript;
    LinkAfter(w, recovery, at, prior);
  }

  /** Whatever happens, the selected release is the one before the run or the one it aims at. */
  lemma RunLink(w: World, d: Decision, registry: Registry, forward: seq<Event>, recovery: seq<Event>)
    requires IsRun(d, forward, recovery) && Concerns(d, w, registry)
    ensures Replay(w, forward + recovery).current in {w.current, Destination(d)}
    ensures Finished(Forward(d), forward) ==> Replay(w, forward + recovery).current == Destination(d)
    ensures d.Activation? && Finished(Recovery(d), recovery) && recovery != [] ==>
      Replay(w, forward + recovery).current == w.current
  {
    ForwardLink(w, d, forward);
    ReplayAppend(w, forward, recovery);
    if d.Activation? && Broken(Forward(d), forward) {
      RecoveryLink(Replay(w, forward), d, recovery, w.current);
    } else {
      assert forward + recovery == forward;
    }
  }

  /** The `k`-th event moves the current link to another release only while the outgoing one is down. */
  ghost predicate MovesSafely(registry: Registry, before: World, e: Event) {
    e.ok && e.step.LinkCurrent? && before.current.Some? && before.current != e.step.to ==>
      && before.current.value in registry
      && Units(registry[before.current.value]) !! before.running
  }

  lemma ForwardMovesSafely(w: World, d: Decision, registry: Registry, forward: seq<Event>, k: nat)
    requires !d.Refused? && Runs(Forward(d), forward) && Concerns(d, w, registry) && k < |forward|
    ensures MovesSafely(registry, Replay(w, forward[..k]), forward[k])
  {
    hide Replay, StopScript, Units, Runs, Finished, LinksOnce, AfterStop;
    ForwardLinksOnce(d);
    if forward[k].step.LinkCurrent? {
      var stops := forward[..k];
      DoneBefore(StopCurrent(d), AfterStop(d), Destination(d), forward, k);
      if w.current.Some? {
        var c := if d.Activation? then d.current.value else d.outgoing;
        StopClears(w, c, true, stops);
      } else {
        NothingStops(w, stops);
      }
    }
  }

  /** When the only step that moves the current link is tried, the part before it has been completed. */
  lemma DoneBefore(a: seq<Step>, b: seq<Step>, to: Option<string>, events: seq<Event>, k: nat)
    requires Runs(a + b, events) && LinksOnce(a + b, |a|, to) && k < |events| && events[k].step.LinkCurrent?
    ensures Finished(a, events[..k]) && events[k].step.to == to
  {
  }

  lemma NothingStops(w: World, events: seq<Event>)
    requires Finished([], events)
    ensures Replay(w, events) == w
  {
  }

  lemma RecoveryMovesSafely(
      w: World, d: Decision, registry: Registry, forward: seq<Event>, recovery: seq<Event>, k: nat)
    requires d.Activation? && Runs(Forward(d), forward) && Runs(Recovery(d), recovery)
    requires Concerns(d, w, registry) && k < |recovery|
    ensures MovesSafely(registry, Replay(Replay(w, forward), recovery[..k]), recovery[k])
  {
    hide Replay, StopScript, Units, Forward, Runs, Finished, LinksOnce, AfterRecoveryStop;
    RecoveryLinksOnce(d, w.current);
    ForwardLink(w, d, forward);
    if recovery[k].step.LinkCurrent? {
      var stops := recovery[..k];
      DoneBefore(StopScript(d.target, false), AfterRecoveryStop(d), w.current, recovery, k);
      StopClears(Replay(w, forward), d.target, false, stops);
    }
  }

  /**
   At every failure point of activation, recovery or rollback, the current link moves to a different
   release only while no service of the outgoing release is running.
   */
  lemma LinkMovesOnlyWhenDown(
      w: World, d: Decision, registry: Registry, forward: seq<Event>, recovery: seq<Event>, k: nat)
    requires IsRun(d, forward, recovery) && Concerns(d, w, registry)
    requires k < |forward + recovery|
    ensures MovesSafely(registry, Replay(w, (forward + recovery)[..k]), (forward + recovery)[k])
  {
    hide MovesSafely, Replay, Forward, Recovery;
    if k < |forward| {
      ForwardMovesSafely(w, d, registry, forward, k);
      assert (forward + recovery)[..k] == forward[..k];
    } else {
      var j := k - |forward|;
      RecoveryMovesSafely(w, d, registry, forward, recovery, j);
      assert (forward + recovery)[..k] == forward + recovery[..j];
      ReplayAppend(w, forward, recovery[..j]);
    }
  }
}

/**
 The release control program itself (infrastructure/deployment/release_control.py): `stop_release`,
 `start_release`, `select_release`, `clear_selection` and the execution part of `main`, run against a
 host whose commands succeed or fail as they please.
 */
module ReleaseHost {
  import opened Basics
  import opened ServiceOrder
  import opened ReleaseControl
  import opened ReleaseEvidence
  import opened ReleaseHistory

  /** A record in the evidence: with or without a duration. */
  datatype Record = Timed | Plain

  class Host {
    var current: Option<string>
    var runtime: Option<string>
    var running: set<string>

    ghost function State(): World
      reads this
    {
      World(current, runtime, running)
    }

    /** One command, link operation or time check; a failed stop or start leaves its unit either way. */
    method Perform(step: Step) returns (ok: bool, ghost e: Event)
      modifies this
      ensures e.step == step && e.ok == ok && State() == Apply(old(State()), e)
    {
      ok := *;
      var up: bool := *;
      e := Event(step, ok, up);
      match step {
        case LinkCurrent(to) =>
          if ok {
            current := to;
          }
        case LinkRuntime(config) =>
          if ok {
            runtime := config;
          }
        case Stop(unit) =>
          if ok || !up {
            running := running - {unit};
          }
        case Start(unit) =>
          running := if ok || up then running + {unit} else running - {unit};
        case _ =>
      }
    }

    /** Drain if asked and possible, then stop every service; give up at the first failure. */
    method StopRelease(r: Release, drain: bool) returns (ok: bool, results: seq<Record>, ghost events: seq<Event>)
      modifies this
      ensures if ok then Finished(StopScript(r, drain), events) else Broken(StopScript(r, drain), events)
      ensures State() == Replay(old(State()), events)
      ensures ok ==> |results| == |StopScript(r, drain)| && forall x | x in results :: x == Timed
    {
      hide Finished, Broken, Replay, StopScript;
      ghost var script := StopScript(r, drain);
      ghost var before := State();
      results, events := [], [];
      NothingYet(before, script);
      ghost var e;
      var order := Sorted(r.services, true);
      StopScriptAt(r, drain);
      if drain && r.drains {
        ok, e := Perform(Drain(r.id));
        OneMore(before, script, events, e);
        results, events := results + [Timed], events + [e];
        if !ok {
          return;
        }
      }
      ghost var skip := |events|;
      for i := 0 to |order|
        invariant |events| == |results| == skip + i && Finished(script[..skip + i], events)
        invariant State() == Replay(before, events)
        invariant forall x | x in results :: x == Timed
      {
        ok, e := Perform(Stop(order[i].unit));
        OneMore(before, script, events, e);
        results, events := results + [Timed], events + [e];
        if !ok {
          return;
        }
      }
      ok := true;
      assert script[..|script|] == script;
    }

    /** Start every service in order, then pass the health gate; give up at the first failure. */
    method StartRelease(r: Release) returns (ok: bool, results: seq<Record>, ghost events: seq<Event>)
      modifies this
      ensures if ok then Finished(StartScript(r), events) else Broken(StartScript(r), events)
      ensures State() == Replay(old(State()), events)
    {
      hide Finished, Broken, Replay, StartScript;
      ghost var script := StartScript(r);
      ghost var before := State();
      results, events := [], [];
      NothingYet(before, script);
      ghost var e;
      var order := Sorted(r.services, false);
      StartScriptAt(r);
      for i := 0 to |order|
        invariant |events| == i && Finished(script[..i], events)
        invariant State() == Replay(before, events)
      {
        ok, e := Perform(Start(order[i].unit));
        OneMore(before, script, events, e);
        results, events := results + [Timed], events + [e];
        if !ok {
          return;
        }
      }
      ok, e := Perform(Health(r.id));
      OneMore(before, script, events, e);
      results, events := results + [Timed], events + [e];
      assert script[..|script|] == script;
    }

    /** Point the current link at the release, then the runtime link at its configuration. */
    method SelectRelease(r: Release) returns (ok: bool, ghost events: seq<Event>)
      modifies this
      ensures if ok then Finished(SelectScript(r), events) else Broken(SelectScript(r), events)
      ensures State() == Replay(old(State()), events)
    {
      ok, events := SetLinks(Some(r.id), r.runtimeConfig);
    }

    /** Remove the current link, then the runtime link. */
    method ClearSelection() returns (ok: bool, ghost events: seq<Event>)
      modifies this
      ensures if ok then Finished(ClearScript, events) else Broken(ClearScript, events)
      ensures State() == Replay(old(State()), events)
    {
      ok, events := SetLinks(None, None);
    }

    method SetLinks(to: Option<string>, config: Option<string>) returns (ok: bool, ghost events: seq<Event>)
      modifies this
      ensures
        var script := [LinkCurrent(to), LinkRuntime(config)];
        if ok then Finished(script, events) else Broken(script, events)
      ensures State() == Replay(old(State()), events)
    {
      ghost var e;
      ok, e := Perform(LinkCurrent(to));
      ReplayOneMore(old(State()), [], e);
      events := [] + [e];
      if !ok {
        return;
      }
      ok, e := Perform(LinkRuntime(config));
      ReplayOneMore(old(State()), events, e);
      events := events + [e];
    }

    /** Select a release and start it. */
    method SwitchTo(r: Release) returns (ok: bool, results: seq<Record>, ghost events: seq<Event>)
      modifies this
      ensures if ok then Finished(SwitchScript(r), events) else Broken(SwitchScript(r), events)
      ensures State() == Replay(old(State()), events)
    {
      hide SelectScript, StartScript, Finished, Broken, Replay;
      results := [];
      ok, events := SelectRelease(r);
      RunsInTwoParts(SelectScript(r), events, StartScript(r), []);
      if ok {
        ghost var links := events;
        ok, results, events := StartRelease(r);
        ReplayAppend(old(State()), links, events);
        RunsInTwoParts(SelectScript(r), links, StartScript(r), events);
        events := links + events;
      }
    }

    /** The `try` part of an executed run: the forward script. */
    method RunForward(d: Decision) returns (ok: bool, recoveryChecks: seq<Record>, ghost events: seq<Event>)
      requires !d.Refused?
      modifies this
      ensures if ok then Finished(Forward(d), events) else Broken(Forward(d), events)
      ensures State() == Replay(old(State()), events)
      ensures d.Activation? ==> recoveryChecks == []
      ensures !d.Activation? && !ok ==>
        (Timed in recoveryChecks <==> |events| > |StopCurrent(d)| > 0)
    {
      hide StopScript, SwitchScript, Finished, Broken, Replay;
      ghost var before := State();
      var results: seq<Record> := [];
      recoveryChecks, events, ok := [], [], true;
      if !(d.Activation? && d.current.None?) {
        var outgoing := if d.Activation? then d.current.value else d.outgoing;
        ok, results, events := StopRelease(outgoing, true);
        StopPart(d, events);
        if !ok {
          return;
        }
        if !d.Activation? {
          recoveryChecks := recoveryChecks + results;
          assert |results| > 0 ==> results[0] in recoveryChecks;
        }
      } else {
        NothingYet(before, []);
      }
      ghost var stops := events;
      if d.Deactivation? {
        ok, events := ClearSelection();
      } else {
        ok, results, events := SwitchTo(d.target);
        if ok && !d.Activation? {
          recoveryChecks := recoveryChecks + results;
        }
      }
      ghost var rest := events;
      ReplayAppend(before, stops, rest);
      if d.Activation? {
        RunsInTwoParts(SwitchScript(d.target), rest, [Deadline], []);
        if ok {
          ghost var e;
          ok, e := Perform(Deadline);
          DeadlineStep(e);
          ReplayOneMore(before, stops + rest, e);
          RunsInTwoParts(SwitchScript(d.target), rest, [Deadline], [e]);
          assert stops + rest + [e] == stops + (rest + [e]);
          rest := rest + [e];
        }
      }
      RunsInTwoParts(StopCurrent(d), stops, AfterStop(d), rest);
      BrokenIsLonger(AfterStop(d), rest);
      events := stops + rest;
    }

    /** The automatic recovery of a failed activation. */
    method Recover(d: Decision) returns (ok: bool, ghost events: seq<Event>)
      requires d.Activation?
      modifies this
      ensures if ok then Finished(Recovery(d), events) else Broken(Recovery(d), events)
      ensures State() == Replay(old(State()), events)
    {
      hide StopScript, SwitchScript, Finished, Broken, Replay;
      ghost var before := State();
      var results;
      ok, results, events := StopRelease(d.target, false);
      ghost var stops := events;
      RunsInTwoParts(StopScript(d.target, false), stops, AfterRecoveryStop(d), []);
      if ok {
        if d.current.None? {
          ok, events := ClearSelection();
        } else {
          ok, results, events := SwitchTo(d.current.value);
        }
        ReplayAppend(before, stops, events);
        RunsInTwoParts(StopScript(d.target, false), stops, AfterRecoveryStop(d), events);
        events := stops + events;
      }
    }

    /**
     The executed part of `main`: the forward script, for a failed activation the recovery, and the
     evidence that says how it went.
     */
    method Execute(d: Decision) returns (outcome: Outcome, ghost forward: seq<Event>, ghost recovery: seq<Event>)
      requires !d.Refused?
      modifies this
      ensures EndsAs(d, forward, recovery, outcome)
      ensures State() == Replay(old(State()), forward + recovery)
    {
      hide Replay, Forward, Recovery, Finished, Broken, StopCurrent, EndsAs;
      var ok, recoveryChecks;
      ok, recoveryChecks, forward := RunForward(d);
      recovery := [];
      assert forward + [] == forward;
      if ok {
        EndsAfterForward(d, forward);
        return if d.Activation? then HealthGated else RollbackPassed, forward, recovery;
      }
      recoveryChecks := recoveryChecks + [Plain];
      if !d.Activation? {
        recoveryChecks := recoveryChecks + [Plain];
        EndsInRollback(d, forward);
        // The rollback evidence schema admits no durations.
        if Timed in recoveryChecks {
          return EvidenceRejected, forward, recovery;
        }
        return RollbackFailed, forward, recovery;
      }
      ok, recovery := Recover(d);
      ReplayAppend(old(State()), forward, recovery);
      EndsAfterRecovery(d, forward, recovery, ok);
      if ok {
        return RolledBack, forward, recovery;
      }
      return ActivationFailed, forward, recovery;
    }

    /**
     One invocation.  A refusal and a dry run change nothing; an executed run exits as its outcome and the
     labels of its evidence say, and with 0 exactly if it performed every step of its transition and its
     evidence fits.  If the evidence does not fit, it exits 1 with the host as the run has left it.
     Every invocation is an attempt of a `History`.
     */
    method Control(registry: Registry, request: Request, pf: Preflight)
        returns (exit: int, written: set<Document>, ghost attempt: Attempt, ghost outcome: Option<Outcome>)
      modifies this
      ensures attempt.request == request && attempt.preflight == pf
      ensures Attempted(registry, old(State()), attempt) && State() == After(old(State()), attempt)
      ensures Decide(registry, old(current), request, pf).Refused? ==> exit == 1
      ensures outcome.Some? <==> !Decide(registry, old(current), request, pf).Refused? && pf.execute && pf.authorised
      ensures outcome.Some? ==>
        && exit == ExitCode(outcome.value, Fits(request.labels, request.activate))
        && written == Written(request.labels, outcome.value, request.activate)
        && EndsAs(Decide(registry, old(current), request, pf), attempt.forward, attempt.recovery, outcome.value)
      ensures pf.execute ==>
        (exit == 0 <==>
          Succeeded(registry, old(State()), attempt, request.activate) && Fits(request.labels, request.activate))
      ensures !pf.execute ==> State() == old(State())
    {
      hide Replay, Forward, Recovery, Transition, StopCurrent, Fits, Written;
      attempt, outcome, written := Attempt(request, pf, [], []), None, {};
      NothingYet(State(), []);
      assert attempt.forward + attempt.recovery == [];
      var d := Decide(registry, current, request, pf);
      if d.Refused? {
        return 1, written, attempt, outcome;
      }
      if pf.execute && !pf.authorised {
        return 1, written, attempt, outcome;
      }
      if !pf.execute {
        written := if request.activate then {RollbackEvidence, ActivationEvidence} else {RollbackEvidence};
        return 0, written, attempt, outcome;
      }
      DecidedKind(registry, current, request, pf);
      var ended;
      ghost var forward, recovery;
      ended, forward, recovery := Execute(d);
      attempt, outcome := Attempt(request, pf, forward, recovery), Some(ended);
      exit, written := Publish(request.labels, ended, request.activate);
    }
  }

  lemma StopPart(d: Decision, events: seq<Event>)
    requires !d.Refused?
    ensures Broken(StopCurrent(d), events) ==> Broken(Forward(d), events) && |events| <= |StopCurrent(d)|
    ensures Finished(StopCurrent(d), events) ==> |events| == |StopCurrent(d)|
  {
    RunsInTwoParts(StopCurrent(d), events, AfterStop(d), []);
  }

  lemma NothingYet(w: World, script: seq<Step>)
    ensures Finished(script[..0], []) && Replay(w, []) == w
  {
  }

  /** One more step of a script that went well so far. */
  lemma OneMore(w: World, script: seq<Step>, events: seq<Event>, e: Event)
    requires |events| < |script| && Finished(script[..|events|], events) && e.step == script[|events|]
    ensures if e.ok then Finished(script[..|events| + 1], events + [e]) else Broken(script, events + [e])
    ensures Replay(w, events + [e]) == Apply(Replay(w, events), e)
  {
    ReplayOneMore(w, events, e);
  }

  lemma StopScriptAt(r: Release, drain: bool)
    ensures
      var script, order := StopScript(r, drain), Sorted(r.services, true);
      var skip := if drain && r.drains then 1 else 0;
      && |script| == skip + |order|
      && (drain && r.drains ==> script[0] == Drain(r.id))
      && forall i | 0 <= i < |order| :: script[skip + i] == Stop(order[i].unit)
  {
  }

  lemma StartScriptAt(r: Release)
    ensures
      var script, order := StartScript(r), Sorted(r.services, false);
      && |script| == |order| + 1
      && script[|order|] == Health(r.id)
      && forall i | 0 <= i < |order| :: script[i] == Start(order[i].unit)
  {
  }

  lemma DeadlineStep(e: Event)
    requires e.step == Deadline
    ensures if e.ok then Finished([Deadline], [e]) else Broken([Deadline], [e])
  {
  }

  lemma BrokenIsLonger(script: seq<Step>, events: seq<Event>)
    ensures Broken(script, events) ==> events != []
  {
  }
}

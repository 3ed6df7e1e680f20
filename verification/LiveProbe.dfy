/**
 A live platform probe from its first request to its exit code (beam/scripts/platform_probe.py): the recorder that it
 updates in place, the fixed order of its steps, and what its evidence and exit code then mean.
 */
module LiveProbe {
  import opened Basics
  import opened ProbeRecorder
  import Readiness

  /** What each step of a run would find; later ones matter only if they are reached. */
  datatype Live = Live(
    setup: Outcome, health: Outcome, sameRelease: bool, readiness: Outcome, auth: Outcome, connect: Outcome,
    command: Outcome, eventId: Outcome, delivery: Outcome, sameEvent: bool, ack: Outcome, worker: Outcome,
    effectApplied: bool, second: Outcome, resume: Outcome, fallback: Outcome, kernel: Outcome)

  function Stages(live: Live): seq<Stage> {
    [ Unrecorded(live.setup),
      Recorded(HttpsHealth, live.health),
      Rechecked(HttpsHealth, live.sameRelease, "release_identity_mismatch"),
      Recorded(RuntimeReadiness, live.readiness),
      Recorded(WebsocketAuth, live.auth),
      Recorded(WebsocketConnect, live.connect),
      Recorded(DurableCommandCommit, live.command),
      Unrecorded(live.eventId),
      Delivery(live.delivery),
      Marked(OutboxHandoff, live.sameEvent, "handoff_identity_mismatch"),
      Unrecorded(live.ack),
      Recorded(WorkerJob, live.worker),
      Rechecked(WorkerJob, live.effectApplied, "terminal_effect_invalid"),
      Unrecorded(live.second),
      Recorded(ResumeGapRepair, live.resume),
      Recorded(NativeFallback, live.fallback),
      Tolerant(NativeKernel, live.kernel)]
  }

  /** The stage that fills a check. */
  function Place(n: Name): nat {
    match n
    case HttpsHealth => 1
    case RuntimeReadiness => 3
    case WebsocketAuth => 4
    case WebsocketConnect => 5
    case DurableCommandCommit => 6
    case RealtimeDelivery => 8
    case OutboxHandoff => 9
    case WorkerJob => 11
    case ResumeGapRepair => 14
    case NativeFallback => 15
    case NativeKernel => 16
  }

  lemma StagesFill(live: Live, n: Name, i: nat)
    requires i < |Stages(live)|
    ensures Place(n) < |Stages(live)| && (Fills(Stages(live)[i]) == Some(n) <==> i == Place(n))
  {
  }

  lemma StagesAreScript(live: Live)
    ensures Script(Stages(live))
  {
    hide Stages, Fills, Place;
    var s := Stages(live);
    LastStageFills(live);
    forall n: Name
      ensures !Unfilled(s, n)
    {
      StagesFill(live, n, 0);
      StagesFill(live, n, Place(n));
    }
    forall i, j | 0 <= i < j < |s| && Fills(s[i]).Some?
      ensures Fills(s[i]) != Fills(s[j])
    {
      StagesFill(live, Fills(s[i]).value, i);
      StagesFill(live, Fills(s[i]).value, j);
    }
    assert forall i | 0 <= i < |s| && s[i].Unrecorded? :: FilledLater(s, i);
  }

  lemma LastStageFills(live: Live)
    ensures |Stages(live)| == 17
    ensures !Stages(live)[16].Unrecorded? && Fills(Stages(live)[16]).Some?
  {
  }

  /** A check after the remaining ones have been blocked. */
  function Released(e: Entry, listed: bool, failureClass: string): Entry {
    if listed && e.failureClass == NotExecuted then Entry(Blocked, Class(failureClass)) else e
  }

  class Recorder {
    var checks: map<Name, Entry>
    var counts: map<Counter, nat>

    ghost predicate Valid()
      reads this
    {
      Sheet(checks, counts).Valid()
    }

    ghost function View(): ValidSheet
      requires Valid()
      reads this
    {
      Sheet(checks, counts)
    }

    constructor ()
      ensures Valid() && View() == Blank()
    {
      checks, counts := Blank().checks, Blank().counts;
    }

    method Count(c: Counter)
      requires Valid()
      modifies this
      ensures Valid() && View() == CountUp(old(View()), Some(c))
    {
      counts := counts[c := counts[c] + 1];
    }

    method Set(name: Name, status: Status, failureClass: FailureClass)
      requires Valid()
      modifies this
      ensures Valid() && View() == SetTo(old(View()), name, Entry(status, failureClass))
    {
      checks := checks[name := Entry(status, failureClass)];
    }

    // A step outside the recorder's protection.
    method Step(o: Outcome) returns (r: Raised)
      requires Valid()
      modifies this
      ensures Valid() && (View(), r) == Play(Unrecorded(o), old(View()))
    {
      if o.counted.Some? {
        Count(o.counted.value);
      }
      r := o.end;
    }

    method Run(name: Name, o: Outcome) returns (r: Raised)
      requires Valid()
      modifies this
      ensures Valid() && (View(), r) == Play(Recorded(name, o), old(View()))
    {
      var end := Step(o);
      match end {
        case Fine =>
          Set(name, Passed, NoFailure);
          r := Fine;
        case ProbeFailure(blocked, c) =>
          Set(name, if blocked then Blocked else Failed, Class(c));
          r := end;
        case Other =>
          Set(name, Failed, Class(UNEXPECTED));
          r := ProbeFailure(false, UNEXPECTED);
      }
    }

    method BlockRemaining(names: seq<Name>, failureClass: string)
      requires Valid()
      modifies this
      ensures Valid() && counts == old(counts)
      ensures forall n: Name :: checks[n] == Released(old(checks)[n], n in names, failureClass)
    {
      for k := 0 to |names|
        invariant Valid() && counts == old(counts)
        invariant forall n: Name :: checks[n] == Released(old(checks)[n], n in names[..k], failureClass)
      {
        if checks[names[k]].failureClass == NotExecuted {
          Set(names[k], Blocked, Class(failureClass));
        }
        assert names[..k + 1] == names[..k] + [names[k]];
      }
      assert names[..|names|] == names;
    }

    // Blocks every check that the run has not reached.
    method BlockAll(failureClass: string)
      requires Valid()
      modifies this
      ensures Valid() && View() == BlockedRemaining(old(View()), failureClass)
    {
      OrderIsComplete();
      BlockRemaining(CHECK_ORDER, failureClass);
      assert checks == BlockedRemaining(old(View()), failureClass).checks;
    }

    method Status() returns (status: Status)
      requires Valid()
      ensures status == StatusOf(View())
    {
      OrderIsComplete();
      for k := 0 to |COUNTERS|
        invariant forall i | 0 <= i < k :: counts[COUNTERS[i]] == 0
      {
        if counts[COUNTERS[k]] > 0 {
          assert View().counts[COUNTERS[k]] > 0;
          return Failed;
        }
      }
      assert forall c: Counter :: c in COUNTERS ==> counts[c] == 0;
      assert !Counted(View());
      var statuses := set n | n in CHECK_ORDER :: checks[n].status;
      assert forall s :: s in statuses <==> Shows(View(), s);
      if Failed in statuses {
        return Failed;
      }
      if Blocked in statuses {
        return Blocked;
      }
      return Passed;
    }

    // The run: every step in its order, stopping where one raises.
    method RunLiveProbe(live: Live) returns (r: Raised)
      requires Valid() && View() == Blank()
      modifies this
      ensures Valid() && (View(), r) == PlayAll(Stages(live))
    {
      hide PlayAll;
      ghost var all := Stages(live);
      NothingYet(all);
      r := Identify(live);
      if r != Fine {
        StopsThere(all[..3], all);
        return;
      }
      r := Commit(live);
      if r != Fine {
        StopsThere(all[..7], all);
        return;
      }
      r := Handoff(live);
      if r != Fine {
        StopsThere(all[..11], all);
        return;
      }
      r := After(live);
    }

    // From the start to the release's identity.
    method Identify(live: Live) returns (r: Raised)
      requires Valid() && (View(), Fine) == PlayAll(Stages(live)[..0])
      modifies this
      ensures Valid() && (View(), r) == PlayAll(Stages(live)[..3])
    {
      hide Play, PlayAll;
      ghost var all := Stages(live);
      r := Step(live.setup);
      Reach(all, 0);
      if r != Fine { Stop(all, 1, 3); return; }
      r := Run(HttpsHealth, live.health);
      Reach(all, 1);
      if r != Fine { Stop(all, 2, 3); return; }
      r := Recheck(HttpsHealth, live.sameRelease, "release_identity_mismatch");
      Reach(all, 2);
    }

    // From the readiness of the runtime to the committed command.
    method Commit(live: Live) returns (r: Raised)
      requires Valid() && (View(), Fine) == PlayAll(Stages(live)[..3])
      modifies this
      ensures Valid() && (View(), r) == PlayAll(Stages(live)[..7])
    {
      hide Play, PlayAll;
      ghost var all := Stages(live);
      r := Run(RuntimeReadiness, live.readiness);
      Reach(all, 3);
      if r != Fine { Stop(all, 4, 7); return; }
      r := Run(WebsocketAuth, live.auth);
      Reach(all, 4);
      if r != Fine { Stop(all, 5, 7); return; }
      r := Run(WebsocketConnect, live.connect);
      Reach(all, 5);
      if r != Fine { Stop(all, 6, 7); return; }
      r := Run(DurableCommandCommit, live.command);
      Reach(all, 6);
    }

    // From the committed command to the acknowledged event.
    method Handoff(live: Live) returns (r: Raised)
      requires Valid() && (View(), Fine) == PlayAll(Stages(live)[..7])
      modifies this
      ensures Valid() && (View(), r) == PlayAll(Stages(live)[..11])
    {
      hide Play, PlayAll;
      ghost var all := Stages(live);
      r := Step(live.eventId);
      Reach(all, 7);
      if r != Fine { Stop(all, 8, 11); return; }
      r := Deliver(live.delivery);
      Reach(all, 8);
      if r != Fine { Stop(all, 9, 11); return; }
      r := Mark(OutboxHandoff, live.sameEvent, "handoff_identity_mismatch");
      Reach(all, 9);
      if r != Fine { Stop(all, 10, 11); return; }
      r := Step(live.ack);
      Reach(all, 10);
    }

    // From the worker's job to the native kernel.
    method After(live: Live) returns (r: Raised)
      requires Valid() && (View(), Fine) == PlayAll(Stages(live)[..11])
      modifies this
      ensures Valid() && (View(), r) == PlayAll(Stages(live))
    {
      hide Play, PlayAll;
      ghost var all := Stages(live);
      assert all[..17] == all;
      r := Run(WorkerJob, live.worker);
      Reach(all, 11);
      if r != Fine { Stop(all, 12, 17); return; }
      r := Recheck(WorkerJob, live.effectApplied, "terminal_effect_invalid");
      Reach(all, 12);
      if r != Fine { Stop(all, 13, 17); return; }
      r := Step(live.second);
      Reach(all, 13);
      if r != Fine { Stop(all, 14, 17); return; }
      r := Run(ResumeGapRepair, live.resume);
      Reach(all, 14);
      if r != Fine { Stop(all, 15, 17); return; }
      r := Run(NativeFallback, live.fallback);
      Reach(all, 15);
      if r != Fine { Stop(all, 16, 17); return; }
      r := Tolerate(NativeKernel, live.kernel);
      Reach(all, 16);
    }

    method Recheck(name: Name, holds: bool, failureClass: string) returns (r: Raised)
      requires Valid()
      modifies this
      ensures Valid() && (View(), r) == Play(Rechecked(name, holds, failureClass), old(View()))
    {
      if !holds {
        Set(name, Failed, Class(failureClass));
        return ProbeFailure(false, failureClass);
      }
      r := Fine;
    }

    method Mark(name: Name, holds: bool, failureClass: string) returns (r: Raised)
      requires Valid()
      modifies this
      ensures Valid() && (View(), r) == Play(Marked(name, holds, failureClass), old(View()))
    {
      if holds {
        Set(name, Passed, NoFailure);
        r := Fine;
      } else {
        Set(name, Failed, Class(failureClass));
        r := ProbeFailure(false, failureClass);
      }
    }

    // A delivery that fails is a lost durable event, and the handoff fails with it.
    method Deliver(o: Outcome) returns (r: Raised)
      requires Valid()
      modifies this
      ensures Valid() && (View(), r) == Play(Delivery(o), old(View()))
    {
      r := Run(RealtimeDelivery, o);
      if r.ProbeFailure? {
        Count(DurableEventLoss);
        Set(OutboxHandoff, if r.blocked then Blocked else Failed, Class(r.failureClass));
      }
    }

    // Only a blocked failure is let through.
    method Tolerate(name: Name, o: Outcome) returns (r: Raised)
      requires Valid()
      modifies this
      ensures Valid() && (View(), r) == Play(Tolerant(name, o), old(View()))
    {
      r := Run(name, o);
      if r.ProbeFailure? && r.blocked {
        r := Fine;
      }
    }
  }

  lemma NothingYet(all: seq<Stage>)
    ensures PlayAll(all[..0]) == (Blank(), Fine)
  {
    hide Blank;
  }

  lemma Reach(all: seq<Stage>, k: nat)
    requires k < |all| && PlayAll(all[..k]).1 == Fine
    ensures PlayAll(all[..k + 1]) == Play(all[k], PlayAll(all[..k]).0)
  {
    assert all[..k + 1] == all[..k] + [all[k]];
    PlayOneMore(all[..k], all[k]);
  }

  lemma Stop(all: seq<Stage>, k: nat, m: nat)
    requires k <= m <= |all| && PlayAll(all[..k]).1 != Fine
    ensures PlayAll(all[..m]) == PlayAll(all[..k])
  {
    StopsThere(all[..k], all[..m]);
  }

  // ----- the whole probe -----

  function ExitCode(status: Status): int {
    match status
    case Passed => 0
    case Blocked => 2
    case Failed => 1
  }

  /** The sheet that is published: of a run, or of none where the probe token cannot be loaded (`noToken`). */
  function Published(noToken: Option<string>, live: Live): ValidSheet {
    if noToken.Some? then BlockedRemaining(Blank(), noToken.value) else Closed(PlayAll(Stages(live)))
  }

  method Probe(noToken: Option<string>, live: Live)
    returns (checks: map<Name, Entry>, counts: map<Counter, nat>, code: int)
    ensures Sheet(checks, counts) == Published(noToken, live)
    ensures code == ExitCode(StatusOf(Published(noToken, live)))
  {
    hide PlayAll, Stages;
    var recorder := new Recorder();
    if noToken.Some? {
      recorder.BlockAll(noToken.value);
    } else {
      var r := recorder.RunLiveProbe(live);
      match r {
        case Fine =>
        case ProbeFailure(_, _) => recorder.BlockAll(UPSTREAM);
        case Other => recorder.BlockAll(UNEXPECTED);
      }
    }
    var status := recorder.Status();
    return recorder.checks, recorder.counts, ExitCode(status);
  }

  /** What the published evidence means, for every way a run can go. */
  lemma ProbeMeans(noToken: Option<string>, live: Live)
    ensures forall n: Name :: Published(noToken, live).checks[n].failureClass != NotExecuted
    ensures ExitCode(StatusOf(Published(noToken, live))) == 0 <==> noToken == None && AllClean(Stages(live))
    ensures ExitCode(StatusOf(Published(noToken, live))) == 1 <==> noToken == None && AlarmReached(Stages(live))
    ensures forall n: Name :: Published(noToken, live).checks[n].status == Passed ==>
      noToken == None && Executed(Stages(live), Place(n)) && !Stops(Stages(live)[Place(n)])
  {
    hide PlayAll, Stages, AllClean, AlarmReached, StatusOf, Place, Stops;
    if noToken.Some? {
      NothingRan(noToken.value);
    } else {
      StagesAreScript(live);
      PassedExactly(Stages(live));
      FailedExactly(Stages(live));
      forall n: Name
        ensures Published(noToken, live).checks[n].failureClass != NotExecuted
        ensures Published(noToken, live).checks[n].status == Passed ==>
          Executed(Stages(live), Place(n)) && !Stops(Stages(live)[Place(n)])
      {
        EveryCheckAccounted(Stages(live), n);
        if Published(noToken, live).checks[n].status == Passed {
          RanInPlace(live, n);
        }
      }
    }
  }

  lemma NothingRan(failureClass: string)
    ensures StatusOf(BlockedRemaining(Blank(), failureClass)) == Blocked
    ensures forall n: Name :: BlockedRemaining(Blank(), failureClass).checks[n] == Entry(Blocked, Class(failureClass))
  {
    var s := BlockedRemaining(Blank(), failureClass);
    assert s.checks[HttpsHealth].status == Blocked;
  }

  lemma RanInPlace(live: Live, n: Name)
    requires Closed(PlayAll(Stages(live))).checks[n].status == Passed
    ensures Executed(Stages(live), Place(n)) && !Stops(Stages(live)[Place(n)])
  {
    hide PlayAll, Stages, Fills, Place, Stops;
    var s := Stages(live);
    PassedMeansRan(s, n);
    var k :| Executed(s, k) && Fills(s[k]) == Some(n) && Written(s[k]).status == Passed && !Stops(s[k]);
    StagesFill(live, n, k);
  }

  /** A failure in a step that records nothing, here the acknowledgement, is published as blocked and not as failed. */
  lemma UnrecordedFailureIsBlocked(live: Live, failureClass: string)
    requires AllClean(Stages(live))
    ensures ExitCode(StatusOf(Published(None, live.(ack := Outcome(None, ProbeFailure(false, failureClass)))))) == 2
  {
    hide PlayAll, AlarmReached;
    var bad := live.(ack := Outcome(None, ProbeFailure(false, failureClass)));
    ProbeMeans(None, bad);
    assert !Clean(Stages(bad)[10]);
    assert forall i | 0 <= i < 17 && i != 10 :: Stages(bad)[i] == Stages(live)[i];
    assert forall i | 0 <= i < 17 :: !Alarms(Stages(bad)[i]);
    NoAlarmReached(Stages(bad));
  }

  lemma NoAlarmReached(stages: seq<Stage>)
    requires forall i | 0 <= i < |stages| :: !Alarms(stages[i])
    ensures !AlarmReached(stages)
  {
  }

  // ----- what the readiness composer reads -----

  /** A check's name in the evidence. */
  function NameText(n: Name): string {
    match n
    case HttpsHealth => "https-health"
    case RuntimeReadiness => "runtime-readiness"
    case WebsocketConnect => "websocket-connect"
    case WebsocketAuth => "websocket-auth"
    case DurableCommandCommit => "durable-command-commit"
    case OutboxHandoff => "outbox-handoff"
    case RealtimeDelivery => "realtime-delivery"
    case ResumeGapRepair => "resume-gap-repair"
    case WorkerJob => "worker-job"
    case NativeKernel => "native-kernel"
    case NativeFallback => "native-fallback"
  }

  function CounterText(c: Counter): string {
    match c
    case AuthorizationBypass => "authorization_bypass"
    case SecretExposure => "secret_exposure"
    case DuplicateDurableIdentity => "duplicate_durable_identity"
    case EventBeforeCommit => "event_before_commit"
    case DurableEventLoss => "durable_event_loss"
  }

  function Listed(): seq<string> {
    seq(|CHECK_ORDER|, i requires 0 <= i < |CHECK_ORDER| => NameText(CHECK_ORDER[i]))
  }

  lemma NamesDiffer(n: Name, m: Name)
    requires NameText(n) == NameText(m)
    ensures n == m
  {
    var a, b := NameText(n), NameText(m);
    assert |a| == |b| && a[0] == b[0] && a[2] == b[2];
  }

  /** The evidence of every run lists exactly the checks that the composer requires and counts exactly the events it sums. */
  lemma SuitsComposer()
    ensures Readiness.ExactSet(Listed(), Readiness.Required(Readiness.PlatformProbe).value)
    ensures |COUNTERS| == |Readiness.EVENTS|
    ensures forall i | 0 <= i < |COUNTERS| :: CounterText(COUNTERS[i]) == Readiness.EVENTS[i]
  {
    hide NameText, Listed;
    ListedOnce();
    forall x
      ensures x in Listed() <==> x in Readiness.Required(Readiness.PlatformProbe).value
    {
      ListedIsRequired(x);
    }
  }

  lemma ListedOnce()
    ensures forall i, j | 0 <= i < j < |Listed()| :: Listed()[i] != Listed()[j]
  {
    hide NameText, CHECK_ORDER;
    forall i, j | 0 <= i < j < |Listed()|
      ensures Listed()[i] != Listed()[j]
    {
      OrderDiffers(i, j);
      if Listed()[i] == Listed()[j] {
        NamesDiffer(CHECK_ORDER[i], CHECK_ORDER[j]);
      }
    }
  }

  lemma ListedIsRequired(x: string)
    ensures x in Listed() <==> x in Readiness.Required(Readiness.PlatformProbe).value
  {
    hide NameText;
    var names := Listed();
    NameTexts();
    assert x in names <==> exists i | 0 <= i < 11 :: names[i] == x;
    assert x in names <==>
      || x == names[0] || x == names[1] || x == names[2] || x == names[3] || x == names[4] || x == names[5]
      || x == names[6] || x == names[7] || x == names[8] || x == names[9] || x == names[10];
  }

  lemma NameTexts()
    ensures
      var s := CHECK_ORDER;
      && NameText(s[0]) == "https-health" && NameText(s[1]) == "runtime-readiness" && NameText(s[2]) == "websocket-connect"
      && NameText(s[3]) == "websocket-auth" && NameText(s[4]) == "durable-command-commit" && NameText(s[5]) == "outbox-handoff"
      && NameText(s[6]) == "realtime-delivery" && NameText(s[7]) == "resume-gap-repair" && NameText(s[8]) == "worker-job"
      && NameText(s[9]) == "native-kernel" && NameText(s[10]) == "native-fallback"
  {
  }

  lemma OrderDiffers(i: nat, j: nat)
    requires i < j < |CHECK_ORDER|
    ensures CHECK_ORDER[i] != CHECK_ORDER[j]
  {
  }
}

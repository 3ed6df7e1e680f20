/**
 The live probe's bookkeeping (beam/scripts/platform_probe.py): eleven named checks, five correctness counters, and a
 run that stops at the first failure it does not tolerate. What each step finds on the network is an input.

 A check's duration, owner and evidence reference, and the list of error messages, are not modelled.
 */
module ProbeRecorder {
  import opened Basics

  datatype Name =
    | HttpsHealth | RuntimeReadiness | WebsocketConnect | WebsocketAuth | DurableCommandCommit | OutboxHandoff
    | RealtimeDelivery | ResumeGapRepair | WorkerJob | NativeKernel | NativeFallback

  const CHECK_ORDER: seq<Name> := [
    HttpsHealth, RuntimeReadiness, WebsocketConnect, WebsocketAuth, DurableCommandCommit, OutboxHandoff,
    RealtimeDelivery, ResumeGapRepair, WorkerJob, NativeKernel, NativeFallback]

  datatype Counter =
    AuthorizationBypass | SecretExposure | DuplicateDurableIdentity | EventBeforeCommit | DurableEventLoss

  const COUNTERS: seq<Counter> := [
    AuthorizationBypass, SecretExposure, DuplicateDurableIdentity, EventBeforeCommit, DurableEventLoss]

  datatype Status = Passed | Blocked | Failed

  datatype FailureClass = NotExecuted | NoFailure | Class(name: string)

  datatype Entry = Entry(status: Status, failureClass: FailureClass)

  /** How a step ends: normally, with a classified probe failure, or with any other exception. */
  datatype Raised = Fine | ProbeFailure(blocked: bool, failureClass: string) | Other

  /** A step may count one correctness event before it ends. */
  datatype Outcome = Outcome(counted: Option<Counter>, end: Raised)

  const UNEXPECTED := "unexpected_probe_error"

  const UPSTREAM := "upstream_probe_step_failed"

  // ----- the sheet and what each kind of step does to it -----

  datatype Sheet = Sheet(checks: map<Name, Entry>, counts: map<Counter, nat>) {
    ghost predicate Valid() {
      (forall n: Name :: n in checks) && (forall c: Counter :: c in counts)
    }
  }

  type ValidSheet = s: Sheet | s.Valid() ghost witness Blank()

  function Blank(): (s: Sheet)
    ensures s.Valid()
  {
    OrderIsComplete();
    Sheet(
      map n: Name | n in CHECK_ORDER :: Entry(Blocked, NotExecuted),
      map c: Counter | c in COUNTERS :: 0)
  }

  lemma OrderIsComplete()
    ensures forall n: Name :: n in CHECK_ORDER
    ensures forall c: Counter :: c in COUNTERS
  {
    forall n: Name
      ensures n in CHECK_ORDER
    {
      match n {
        case HttpsHealth => assert n == CHECK_ORDER[0];
        case RuntimeReadiness => assert n == CHECK_ORDER[1];
        case WebsocketConnect => assert n == CHECK_ORDER[2];
        case WebsocketAuth => assert n == CHECK_ORDER[3];
        case DurableCommandCommit => assert n == CHECK_ORDER[4];
        case OutboxHandoff => assert n == CHECK_ORDER[5];
        case RealtimeDelivery => assert n == CHECK_ORDER[6];
        case ResumeGapRepair => assert n == CHECK_ORDER[7];
        case WorkerJob => assert n == CHECK_ORDER[8];
        case NativeKernel => assert n == CHECK_ORDER[9];
        case NativeFallback => assert n == CHECK_ORDER[10];
      }
    }
    forall c: Counter
      ensures c in COUNTERS
    {
      match c {
        case AuthorizationBypass => assert c == COUNTERS[0];
        case SecretExposure => assert c == COUNTERS[1];
        case DuplicateDurableIdentity => assert c == COUNTERS[2];
        case EventBeforeCommit => assert c == COUNTERS[3];
        case DurableEventLoss => assert c == COUNTERS[4];
      }
    }
  }

  function CountUp(s: ValidSheet, c: Option<Counter>): (r: ValidSheet)
    ensures r.checks == s.checks
  {
    if c.Some? then s.(counts := s.counts[c.value := s.counts[c.value] + 1]) else s
  }

  function SetTo(s: ValidSheet, name: Name, e: Entry): (r: ValidSheet)
    ensures r.counts == s.counts
  {
    s.(checks := s.checks[name := e])
  }

  function EntryOf(end: Raised): Entry {
    match end
    case Fine => Entry(Passed, NoFailure)
    case ProbeFailure(blocked, c) => Entry(if blocked then Blocked else Failed, Class(c))
    case Other => Entry(Failed, Class(UNEXPECTED))
  }

  /** A recorded step re-raises: unexpected exceptions become probe failures. */
  function Reraised(end: Raised): Raised {
    if end.Other? then ProbeFailure(false, UNEXPECTED) else end
  }

  /** The stages that a live probe is made of. */
  datatype Stage =
    | Recorded(name: Name, outcome: Outcome)
    | Tolerant(name: Name, outcome: Outcome)
    | Delivery(outcome: Outcome)
    | Marked(name: Name, holds: bool, failureClass: string)
    | Rechecked(name: Name, holds: bool, failureClass: string)
    | Unrecorded(outcome: Outcome)

  function Play(stage: Stage, s: ValidSheet): (r: (ValidSheet, Raised)) {
    match stage
    case Recorded(name, o) =>
      (SetTo(CountUp(s, o.counted), name, EntryOf(o.end)), Reraised(o.end))
    case Tolerant(name, o) =>
      var end := Reraised(o.end);
      (SetTo(CountUp(s, o.counted), name, EntryOf(o.end)), if end.ProbeFailure? && end.blocked then Fine else end)
    case Delivery(o) =>
      var t := SetTo(CountUp(s, o.counted), RealtimeDelivery, EntryOf(o.end));
      if o.end == Fine then (t, Fine)
      else (SetTo(CountUp(t, Some(DurableEventLoss)), OutboxHandoff, EntryOf(o.end)), Reraised(o.end))
    case Marked(name, holds, c) =>
      if holds then (SetTo(s, name, Entry(Passed, NoFailure)), Fine)
      else (SetTo(s, name, Entry(Failed, Class(c))), ProbeFailure(false, c))
    case Rechecked(name, holds, c) =>
      if holds then (s, Fine) else (SetTo(s, name, Entry(Failed, Class(c))), ProbeFailure(false, c))
    case Unrecorded(o) =>
      (CountUp(s, o.counted), o.end)
  }

  /** Stages run one after the other until one raises. */
  function PlayAll(stages: seq<Stage>): (r: (ValidSheet, Raised)) {
    if stages == [] then (Blank(), Fine)
    else
      var before := PlayAll(stages[..|stages| - 1]);
      if before.1 == Fine then Play(stages[|stages| - 1], before.0) else before
  }

  lemma PlayOneMore(stages: seq<Stage>, stage: Stage)
    ensures PlayAll(stages + [stage]) == if PlayAll(stages).1 == Fine then Play(stage, PlayAll(stages).0) else PlayAll(stages)
  {
    assert (stages + [stage])[..|stages|] == stages;
  }

  /** Once a stage has raised, nothing more is recorded. */
  lemma {:induction false} StopsThere(done: seq<Stage>, stages: seq<Stage>)
    requires done <= stages && PlayAll(done).1 != Fine
    ensures PlayAll(stages) == PlayAll(done)
    decreases |stages|
  {
    if |done| == |stages| {
      assert done == stages;
    } else {
      StopsThere(done, stages[..|stages| - 1]);
    }
  }

  function BlockedRemaining(s: ValidSheet, failureClass: string): (r: ValidSheet) {
    s.(checks := map n: Name | n in s.checks ::
      if s.checks[n].failureClass == NotExecuted then Entry(Blocked, Class(failureClass)) else s.checks[n])
  }

  /** After the stages have ended, whichever way. */
  function Closed(r: (ValidSheet, Raised)): ValidSheet {
    match r.1
    case Fine => r.0
    case ProbeFailure(_, _) => BlockedRemaining(r.0, UPSTREAM)
    case Other => BlockedRemaining(r.0, UNEXPECTED)
  }

  ghost predicate Counted(s: ValidSheet) {
    exists c :: s.counts[c] > 0
  }

  ghost predicate Shows(s: ValidSheet, status: Status) {
    exists n :: s.checks[n].status == status
  }

  ghost function StatusOf(s: ValidSheet): Status {
    if Counted(s) || Shows(s, Failed) then Failed
    else if Shows(s, Blocked) then Blocked
    else Passed
  }

  // ----- what a run says about its stages -----

  predicate Stops(stage: Stage) {
    match stage
    case Recorded(_, o) => o.end != Fine
    case Tolerant(_, o) => o.end.Other? || (o.end.ProbeFailure? && !o.end.blocked)
    case Delivery(o) => o.end != Fine
    case Marked(_, holds, _) => !holds
    case Rechecked(_, holds, _) => !holds
    case Unrecorded(o) => o.end != Fine
  }

  /** Nothing went wrong in this stage. */
  predicate Clean(stage: Stage) {
    if stage.Marked? || stage.Rechecked? then stage.holds else stage.outcome == Outcome(None, Fine)
  }

  /** The stage counts a correctness event, or writes a failed check. */
  predicate Alarms(stage: Stage) {
    match stage
    case Recorded(_, o) => o.counted.Some? || o.end.Other? || (o.end.ProbeFailure? && !o.end.blocked)
    case Tolerant(_, o) => o.counted.Some? || o.end.Other? || (o.end.ProbeFailure? && !o.end.blocked)
    case Delivery(o) => o != Outcome(None, Fine)
    case Marked(_, holds, _) => !holds
    case Rechecked(_, holds, _) => !holds
    case Unrecorded(o) => o.counted.Some?
  }

  /** The check that a stage fills in when it ends normally. */
  function Fills(stage: Stage): Option<Name> {
    match stage
    case Recorded(name, _) => Some(name)
    case Tolerant(name, _) => Some(name)
    case Delivery(_) => Some(RealtimeDelivery)
    case Marked(name, _, _) => Some(name)
    case _ => None
  }

  ghost predicate Executed(stages: seq<Stage>, k: int) {
    0 <= k < |stages| && forall m | 0 <= m < k :: !Stops(stages[m])
  }

  /** Each check is filled by exactly one stage, and another one follows every stage that records nothing. */
  ghost predicate Script(stages: seq<Stage>) {
    && (forall n: Name :: !Unfilled(stages, n))
    && FilledOnce(stages)
    && (forall i | 0 <= i < |stages| && stages[i].Unrecorded? :: FilledLater(stages, i))
  }

  ghost predicate FilledLater(stages: seq<Stage>, i: nat) {
    exists j :: i < j < |stages| && Fills(stages[j]).Some?
  }

  ghost predicate Alarmed(s: ValidSheet) {
    Counted(s) || Shows(s, Failed)
  }

  lemma PlayStops(stage: Stage, s: ValidSheet)
    ensures Play(stage, s).1 == Fine <==> !Stops(stage)
  {
  }

  lemma {:induction false} RunsOn(stages: seq<Stage>)
    ensures PlayAll(stages).1 == Fine <==> forall i | 0 <= i < |stages| :: !Stops(stages[i])
  {
    hide Play;
    if stages != [] {
      var n := |stages| - 1;
      RunsOn(stages[..n]);
      assert forall i | 0 <= i < n :: stages[..n][i] == stages[i];
      if PlayAll(stages[..n]).1 == Fine {
        PlayStops(stages[n], PlayAll(stages[..n]).0);
      }
    }
  }

  lemma ExecutedLast(stages: seq<Stage>)
    requires stages != []
    ensures Executed(stages, |stages| - 1) <==> PlayAll(stages[..|stages| - 1]).1 == Fine
    ensures forall k | 0 <= k < |stages| - 1 :: Executed(stages, k) <==> Executed(stages[..|stages| - 1], k)
  {
    hide PlayAll;
    var front := stages[..|stages| - 1];
    RunsOn(front);
    assert forall i | 0 <= i < |front| :: front[i] == stages[i];
  }

  lemma PlayAlarms(stage: Stage, s: ValidSheet)
    requires !Shows(s, Failed)
    ensures Alarmed(Play(stage, s).0) <==> Counted(s) || Alarms(stage)
    ensures !Stops(stage) ==> !Shows(Play(stage, s).0, Failed)
  {
    var t := Play(stage, s).0;
    if Counted(s) {
      var c :| s.counts[c] > 0;
      assert t.counts[c] > 0;
    }
    if stage.Marked? || stage.Rechecked? {
      assert !stage.holds ==> t.checks[stage.name].status == Failed;
    } else {
      assert stage.outcome.counted.Some? ==> t.counts[stage.outcome.counted.value] > 0;
      if stage.Delivery? {
        assert stage.outcome.end != Fine ==> t.counts[DurableEventLoss] > 0;
      } else if !stage.Unrecorded? {
        assert t.checks[stage.name] == EntryOf(stage.outcome.end);
      }
    }
  }

  /** Some stage that was reached raised an alarm. */
  ghost predicate AlarmReached(stages: seq<Stage>) {
    exists k :: Executed(stages, k) && Alarms(stages[k])
  }

  lemma {:induction false} AlarmsShow(stages: seq<Stage>)
    ensures PlayAll(stages).1 == Fine ==> !Shows(PlayAll(stages).0, Failed)
    ensures Alarmed(PlayAll(stages).0) <==> AlarmReached(stages)
  {
    hide Play, Alarms, Stops, AlarmReached;
    if stages == [] {
      NothingReached();
    } else {
      var n := |stages| - 1;
      var front := stages[..n];
      AlarmsShow(front);
      AlarmsOneMore(stages);
      if PlayAll(front).1 == Fine {
        PlayAlarms(stages[n], PlayAll(front).0);
        PlayStops(stages[n], PlayAll(front).0);
      }
    }
  }

  lemma NothingReached()
    ensures !AlarmReached([])
  {
  }

  lemma AlarmsOneMore(stages: seq<Stage>)
    requires stages != []
    ensures AlarmReached(stages)
       <==> AlarmReached(stages[..|stages| - 1]) || (PlayAll(stages[..|stages| - 1]).1 == Fine && Alarms(stages[|stages| - 1]))
  {
    hide PlayAll, Alarms, Stops;
    var n := |stages| - 1;
    var front := stages[..n];
    ExecutedLast(stages);
    if AlarmReached(stages) {
      var k :| Executed(stages, k) && Alarms(stages[k]);
      assert k < n ==> Executed(front, k) && front[k] == stages[k];
    }
    if AlarmReached(front) {
      var k :| Executed(front, k) && Alarms(front[k]);
      assert Executed(stages, k) && stages[k] == front[k];
    }
    if PlayAll(front).1 == Fine && Alarms(stages[n]) {
      assert Executed(stages, n);
    }
  }

  /** A check that was not executed is blocked. */
  ghost predicate Tidy(s: ValidSheet) {
    forall n :: s.checks[n].failureClass == NotExecuted ==> s.checks[n].status == Blocked
  }

  lemma {:induction false} StaysTidy(stages: seq<Stage>)
    ensures Tidy(PlayAll(stages).0)
  {
    hide Play, Tidy;
    if stages == [] {
      BlankIsTidy();
    } else {
      StaysTidy(stages[..|stages| - 1]);
      PlayTidy(stages[|stages| - 1], PlayAll(stages[..|stages| - 1]).0);
    }
  }

  lemma BlankIsTidy()
    ensures Tidy(Blank())
  {
  }

  lemma PlayTidy(stage: Stage, s: ValidSheet)
    requires Tidy(s)
    ensures Tidy(Play(stage, s).0)
  {
  }

  lemma ClosedAlarms(r: (ValidSheet, Raised))
    requires Tidy(r.0)
    ensures Alarmed(Closed(r)) <==> Alarmed(r.0)
  {
    var t := Closed(r);
    assert forall n :: t.checks[n].status == Failed <==> r.0.checks[n].status == Failed;
  }

  /** The probe reports `failed` exactly when a stage that was reached counted an event or wrote a failed check. */
  lemma FailedExactly(stages: seq<Stage>)
    ensures StatusOf(Closed(PlayAll(stages))) == Failed <==> AlarmReached(stages)
  {
    hide PlayAll, Closed, AlarmReached, Counted, Shows;
    AlarmsShow(stages);
    StaysTidy(stages);
    ClosedAlarms(PlayAll(stages));
  }

  // ----- every check is accounted for -----

  /** What a stage that does not stop writes into the check it fills. */
  function Written(stage: Stage): Entry {
    if stage.Marked? || stage.Rechecked? then Entry(Passed, NoFailure) else EntryOf(stage.outcome.end)
  }

  ghost predicate Unfilled(stages: seq<Stage>, n: Name) {
    forall i | 0 <= i < |stages| :: Fills(stages[i]) != Some(n)
  }

  lemma PlayFills(stage: Stage, s: ValidSheet, n: Name)
    requires !Stops(stage)
    ensures Play(stage, s).0.checks[n] == if Fills(stage) == Some(n) then Written(stage) else s.checks[n]
  {
  }

  lemma {:induction false} NotYetFilled(stages: seq<Stage>, n: Name)
    requires PlayAll(stages).1 == Fine && Unfilled(stages, n)
    ensures PlayAll(stages).0.checks[n].failureClass == NotExecuted
  {
    hide Play, Fills, Stops;
    if stages != [] {
      var k := |stages| - 1;
      NotYetFilled(stages[..k], n);
      PlayStops(stages[k], PlayAll(stages[..k]).0);
      PlayFills(stages[k], PlayAll(stages[..k]).0, n);
    }
  }

  ghost predicate FilledOnce(stages: seq<Stage>) {
    forall i, j | 0 <= i < j < |stages| && Fills(stages[i]).Some? :: Fills(stages[i]) != Fills(stages[j])
  }

  lemma {:induction false} FilledBy(stages: seq<Stage>, i: nat, n: Name)
    requires PlayAll(stages).1 == Fine && FilledOnce(stages) && i < |stages| && Fills(stages[i]) == Some(n)
    ensures PlayAll(stages).0.checks[n] == Written(stages[i])
  {
    hide Play, Fills, Stops, Written;
    var k := |stages| - 1;
    PlayStops(stages[k], PlayAll(stages[..k]).0);
    PlayFills(stages[k], PlayAll(stages[..k]).0, n);
    if i < k {
      FilledBy(stages[..k], i, n);
    }
  }

  /** However the run ends, no check is left as not executed. */
  lemma EveryCheckAccounted(stages: seq<Stage>, n: Name)
    requires Script(stages)
    ensures Closed(PlayAll(stages)).checks[n].failureClass != NotExecuted
  {
    hide PlayAll;
    if PlayAll(stages).1 == Fine {
      assert !Unfilled(stages, n);
      var i :| 0 <= i < |stages| && Fills(stages[i]) == Some(n);
      FilledBy(stages, i, n);
    }
  }

  /** A check that is reported as passed was reached, and its stage found nothing wrong. */
  lemma {:induction false} PassedMeansRan(stages: seq<Stage>, n: Name)
    requires PlayAll(stages).0.checks[n].status == Passed
    ensures exists k :: Executed(stages, k) && Fills(stages[k]) == Some(n) && Written(stages[k]).status == Passed && !Stops(stages[k])
  {
    hide Play, Fills, Stops, Written;
    if stages != [] {
      var k := |stages| - 1;
      var front := stages[..k];
      ExecutedLast(stages);
      if PlayAll(front).0.checks[n].status == Passed {
        PassedMeansRan(front, n);
        var m :| Executed(front, m) && Fills(front[m]) == Some(n) && Written(front[m]).status == Passed && !Stops(front[m]);
        assert Executed(stages, m) && stages[m] == front[m];
      } else {
        NewlyPassed(stages[k], PlayAll(front).0, n);
        assert Executed(stages, k);
      }
    }
  }

  lemma NewlyPassed(stage: Stage, s: ValidSheet, n: Name)
    requires s.checks[n].status != Passed && Play(stage, s).0.checks[n].status == Passed
    ensures Fills(stage) == Some(n) && Written(stage).status == Passed && !Stops(stage)
  {
  }

  // ----- what exactly is published -----

  /** The run ended at stage `k`, which stopped it. */
  ghost predicate StoppedAt(stages: seq<Stage>, k: nat) {
    Executed(stages, k) && Stops(stages[k])
  }

  lemma StoppedRun(stages: seq<Stage>, k: nat)
    requires StoppedAt(stages, k)
    ensures PlayAll(stages[..k]).1 == Fine
    ensures PlayAll(stages) == PlayAll(stages[..k + 1]) == Play(stages[k], PlayAll(stages[..k]).0)
    ensures PlayAll(stages).1 != Fine
  {
    hide Play, PlayAll, Stops;
    var front := stages[..k];
    assert forall i | 0 <= i < k :: front[i] == stages[i];
    RunsOn(front);
    assert stages[..k + 1] == front + [stages[k]];
    PlayOneMore(front, stages[k]);
    PlayStops(stages[k], PlayAll(front).0);
    StopsThere(stages[..k + 1], stages);
  }

  /** What a recorded step says of its failure. */
  predicate Records(e: Entry, end: Raised) {
    match end
    case Fine => e == Entry(Passed, NoFailure)
    case ProbeFailure(blocked, c) => e.failureClass == Class(c) && e.status == (if blocked then Blocked else Failed)
    case Other => e == Entry(Failed, Class("unexpected_probe_error"))
  }

  /** The stage that stopped the run: its own check carries its failure, and a lost delivery fails the handoff as well. */
  lemma StoppingEntry(stages: seq<Stage>, k: nat)
    requires StoppedAt(stages, k)
    ensures
      var checks := Closed(PlayAll(stages)).checks;
      match stages[k]
      case Recorded(name, o) => Records(checks[name], o.end)
      case Tolerant(name, o) => Records(checks[name], o.end)
      case Delivery(o) => Records(checks[RealtimeDelivery], o.end) && Records(checks[OutboxHandoff], o.end)
      case Marked(name, _, c) => checks[name] == Entry(Failed, Class(c))
      case Rechecked(name, _, c) => checks[name] == Entry(Failed, Class(c))
      case Unrecorded(_) => true
  {
    hide PlayAll;
    StoppedRun(stages, k);
  }

  /** Checks that the run did not reach are blocked: by an upstream failure, or by an exception nobody recorded. */
  lemma UnreachedEntry(stages: seq<Stage>, k: nat, n: Name)
    requires StoppedAt(stages, k) && Unfilled(stages[..k + 1], n)
    requires !(stages[k].Delivery? && n == OutboxHandoff) && !(stages[k].Rechecked? && stages[k].name == n)
    ensures Closed(PlayAll(stages)).checks[n] ==
      Entry(Blocked, Class(
        if stages[k].Unrecorded? && stages[k].outcome.end == Other then "unexpected_probe_error"
        else "upstream_probe_step_failed"))
  {
    hide PlayAll, Play, Stops, Closed, Fills;
    StoppedRun(stages, k);
    assert forall i | 0 <= i < k :: stages[..k][i] == stages[..k + 1][i];
    assert stages[..k + 1][k] == stages[k];
    NotYetFilled(stages[..k], n);
    StopLeavesBlocked(stages[k], PlayAll(stages[..k]).0, n);
  }

  lemma StopLeavesBlocked(stage: Stage, s: ValidSheet, n: Name)
    requires Stops(stage) && Fills(stage) != Some(n) && s.checks[n].failureClass == NotExecuted
    requires !(stage.Delivery? && n == OutboxHandoff) && !(stage.Rechecked? && stage.name == n)
    ensures Closed(Play(stage, s)).checks[n] ==
      Entry(Blocked, Class(
        if stage.Unrecorded? && stage.outcome.end == Other then "unexpected_probe_error" else "upstream_probe_step_failed"))
  {
  }

  /** A check whose stage was passed says what that stage found, unless the stage that stopped the run wrote it again. */
  lemma PassedEntry(stages: seq<Stage>, i: nat, n: Name)
    requires Script(stages) && Executed(stages, i) && !Stops(stages[i]) && Fills(stages[i]) == Some(n)
    requires forall k: nat | i < k && StoppedAt(stages, k) :: !(stages[k].Rechecked? && stages[k].name == n)
    requires n == OutboxHandoff ==> forall k: nat | i < k && StoppedAt(stages, k) :: !stages[k].Delivery?
    ensures
      var e := Closed(PlayAll(stages)).checks[n];
      if stages[i].Marked? then e == Entry(Passed, NoFailure) else Records(e, stages[i].outcome.end)
  {
    hide PlayAll, Play, Stops, Fills;
    WrittenRecords(stages[i]);
    if PlayAll(stages).1 == Fine {
      FilledBy(stages, i, n);
    } else {
      var k := FirstStop(stages);
      assert StoppedAt(stages, k) && i < k;
      FilledBy(stages[..k], i, n);
      StoppingKeeps(stages, k, n);
    }
  }

  lemma WrittenRecords(stage: Stage)
    requires Fills(stage).Some?
    ensures Written(stage).failureClass != NotExecuted
    ensures if stage.Marked? then Written(stage) == Entry(Passed, NoFailure) else Records(Written(stage), stage.outcome.end)
  {
  }

  lemma StoppingKeeps(stages: seq<Stage>, k: nat, n: Name)
    requires Script(stages) && StoppedAt(stages, k) && Fills(stages[k]) != Some(n)
    requires !(stages[k].Rechecked? && stages[k].name == n) && !(stages[k].Delivery? && n == OutboxHandoff)
    requires PlayAll(stages[..k]).0.checks[n].failureClass != NotExecuted
    ensures Closed(PlayAll(stages)).checks[n] == PlayAll(stages[..k]).0.checks[n]
  {
    hide PlayAll, Script, Stops;
    StoppedRun(stages, k);
  }

  /** How often a stage counts an event: its own, and one lost event for a delivery that fails. */
  function Hits(stage: Stage, c: Counter): nat {
    if stage.Marked? || stage.Rechecked? then 0
    else
      (if stage.outcome.counted == Some(c) then 1 else 0) +
      (if stage.Delivery? && stage.outcome.end != Fine && c == DurableEventLoss then 1 else 0)
  }

  function Tally(stages: seq<Stage>, c: Counter): nat {
    if stages == [] then 0 else Tally(stages[..|stages| - 1], c) + Hits(stages[|stages| - 1], c)
  }

  lemma {:induction false} CountsOfRun(stages: seq<Stage>, c: Counter)
    requires stages == [] || Executed(stages, |stages| - 1)
    ensures PlayAll(stages).0.counts[c] == Tally(stages, c)
  {
    hide Play, Hits, Stops;
    if stages != [] {
      var n := |stages| - 1;
      var front := stages[..n];
      assert forall i | 0 <= i < n :: front[i] == stages[i];
      CountsOfRun(front, c);
      ExecutedLast(stages);
      PlayHits(stages[n], PlayAll(front).0, c);
    }
  }

  lemma PlayHits(stage: Stage, s: ValidSheet, c: Counter)
    ensures Play(stage, s).0.counts[c] == s.counts[c] + Hits(stage, c)
  {
  }

  /** The published counters are the sums over the stages that were reached, the stopping one included. */
  lemma CountsExactly(stages: seq<Stage>, c: Counter)
    ensures (forall i | 0 <= i < |stages| :: !Stops(stages[i])) ==> Closed(PlayAll(stages)).counts[c] == Tally(stages, c)
    ensures forall k: nat | StoppedAt(stages, k) :: Closed(PlayAll(stages)).counts[c] == Tally(stages[..k + 1], c)
  {
    hide PlayAll, Stops, Tally;
    if forall i | 0 <= i < |stages| :: !Stops(stages[i]) {
      CountsOfRun(stages, c);
    }
    forall k: nat | StoppedAt(stages, k)
      ensures Closed(PlayAll(stages)).counts[c] == Tally(stages[..k + 1], c)
    {
      StoppedRun(stages, k);
      assert forall i | 0 <= i <= k :: stages[..k + 1][i] == stages[i];
      CountsOfRun(stages[..k + 1], c);
    }
  }

  // ----- when the probe passes -----

  ghost predicate AllClean(stages: seq<Stage>) {
    forall i | 0 <= i < |stages| :: Clean(stages[i])
  }

  /** A stage that does not stop and raises no alarm can only leave its own check blocked. */
  lemma QuietStage(stage: Stage)
    requires !Stops(stage) && !Alarms(stage)
    ensures Clean(stage) || (Fills(stage).Some? && Written(stage).status == Blocked)
  {
  }

  /** A stage that stops the run without an alarm leaves its own check blocked, or records nothing. */
  lemma QuietStop(stage: Stage, s: ValidSheet)
    requires Stops(stage) && !Alarms(stage)
    ensures stage.Unrecorded? || (stage.Recorded? && Play(stage, s).0.checks[stage.name].status == Blocked)
  {
  }

  lemma CleanRuns(stages: seq<Stage>)
    requires AllClean(stages)
    ensures PlayAll(stages).1 == Fine && !AlarmReached(stages)
  {
    hide PlayAll;
    RunsOn(stages);
    assert forall i | 0 <= i < |stages| :: !Stops(stages[i]) && !Alarms(stages[i]);
  }

  lemma CleanShowsPassed(stages: seq<Stage>, n: Name)
    requires Script(stages) && AllClean(stages)
    ensures Closed(PlayAll(stages)).checks[n].status == Passed
  {
    hide PlayAll, Stops;
    CleanRuns(stages);
    assert !Unfilled(stages, n);
    var i :| 0 <= i < |stages| && Fills(stages[i]) == Some(n);
    FilledBy(stages, i, n);
  }

  /** The first stage that stops the run, if any. */
  lemma {:induction false} FirstStop(stages: seq<Stage>) returns (k: nat)
    requires PlayAll(stages).1 != Fine
    ensures Executed(stages, k) && Stops(stages[k])
    ensures PlayAll(stages[..k]).1 == Fine
    ensures PlayAll(stages) == Play(stages[k], PlayAll(stages[..k]).0)
  {
    hide Play, Stops;
    var n := |stages| - 1;
    var front := stages[..n];
    ExecutedLast(stages);
    if PlayAll(front).1 == Fine {
      k := n;
      PlayStops(stages[n], PlayAll(front).0);
    } else {
      k := FirstStop(front);
      assert front[..k] == stages[..k];
    }
  }

  lemma FullRunShowsBlocked(stages: seq<Stage>, i: nat)
    requires Script(stages) && PlayAll(stages).1 == Fine && !AlarmReached(stages)
    requires i < |stages| && !Clean(stages[i])
    ensures Shows(Closed(PlayAll(stages)), Blocked)
  {
    hide PlayAll, Clean, Alarms, Stops, Written, Fills;
    RunsOn(stages);
    assert Executed(stages, i);
    QuietStage(stages[i]);
    FilledBy(stages, i, Fills(stages[i]).value);
  }

  lemma StoppedRunShowsBlocked(stages: seq<Stage>)
    requires Script(stages) && PlayAll(stages).1 != Fine && !AlarmReached(stages)
    ensures Shows(Closed(PlayAll(stages)), Blocked)
  {
    hide PlayAll, Clean, Alarms, Stops, Written, Fills, Play;
    var k := FirstStop(stages);
    var before := PlayAll(stages[..k]).0;
    QuietStop(stages[k], before);
    if stages[k].Unrecorded? {
      assert FilledLater(stages, k);
      var j :| k < j < |stages| && Fills(stages[j]).Some?;
      var n := Fills(stages[j]).value;
      assert Unfilled(stages[..k], n);
      NotYetFilled(stages[..k], n);
      UnrecordedKeeps(stages[k], before);
      assert Closed(PlayAll(stages)).checks[n].status == Blocked;
    } else {
      assert Closed(PlayAll(stages)).checks[stages[k].name].status == Blocked;
    }
  }

  lemma UnrecordedKeeps(stage: Stage, s: ValidSheet)
    requires stage.Unrecorded?
    ensures Play(stage, s).0.checks == s.checks
  {
  }

  /** The probe passes exactly when every single stage is clean; a run that was cut short never passes. */
  lemma PassedExactly(stages: seq<Stage>)
    requires Script(stages)
    ensures StatusOf(Closed(PlayAll(stages))) == Passed <==> AllClean(stages)
  {
    hide PlayAll, Closed, AlarmReached, Counted, Clean, Script;
    FailedExactly(stages);
    if AllClean(stages) {
      CleanRuns(stages);
      forall n: Name
        ensures Closed(PlayAll(stages)).checks[n].status == Passed
      {
        CleanShowsPassed(stages, n);
      }
    } else if !AlarmReached(stages) {
      if PlayAll(stages).1 == Fine {
        var i :| 0 <= i < |stages| && !Clean(stages[i]);
        FullRunShowsBlocked(stages, i);
      } else {
        StoppedRunShowsBlocked(stages);
      }
    }
  }
}

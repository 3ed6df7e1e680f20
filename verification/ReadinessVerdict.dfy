/**
 The final readiness verdict composed from all inputs (operations/bin/compose_readiness_v1.py), when it is `passed`,
 when it is `failed`, and what happens to it as inputs get worse or time goes by.
 */
module ReadinessVerdict {
  import opened Basics
  import opened Readiness

  ghost predicate EvidenceReady(ctx: Context, rule: Rule, d: Evidence) {
    ValidEvidence(ctx, rule, d) && !Stale(d.time, ctx.now, rule.maxAge) && d.status == Passed && d.live
  }

  predicate CheckpointReady(ctx: Context, maxAge: int, name: string, c: Checkpoint) {
    ValidCheckpoint(ctx, name, c) && !Stale(c.time, ctx.now, maxAge) && c.status == Passed && c.blockers == []
  }

  ghost predicate CompatibilityReady(ctx: Context, maxAge: int, c: Compatibility) {
    && ValidCompatibility(ctx, c) && !Stale(c.time, ctx.now, maxAge) && c.status == Passed
    && forall i | 0 <= i < |c.checks| :: c.checks[i].1 == Passed
  }

  predicate MutationsReady(ctx: Context, maxAge: int, m: Mutations) {
    ValidMutations(ctx, m) && !Stale(m.time, ctx.now, maxAge) && m.status == Passed
  }

  ghost predicate NoEvents(x: Inputs) {
    forall i | 0 <= i < |EVENTS| :: Total(x.evidence, EVENTS[i]) <= 0
  }

  /** Everything is present, valid, bound to the release, fresh, live and passed, and nothing unsafe was observed. */
  ghost predicate Ready(ctx: Context, policy: Policy, x: Inputs)
    requires Fits(policy, x)
  {
    && (forall i | 0 <= i < |x.evidence| :: EvidenceReady(ctx, policy.rules[i], x.evidence[i]))
    && (forall i | 0 <= i < |x.checkpoints| :: CheckpointReady(ctx, policy.checkpointAge, CHECKPOINTS[i], x.checkpoints[i]))
    && CompatibilityReady(ctx, policy.compatibilityAge, x.compatibility)
    && MutationsReady(ctx, policy.mutationsAge, x.mutations)
    && NoEvents(x)
  }

  function Blockers(js: seq<Judgement>): seq<Status> {
    if js == [] then [] else Blockers(js[..|js| - 1]) + js[|js| - 1].blockers
  }

  function Statuses(js: seq<Judgement>): seq<Status> {
    seq(|js|, i requires 0 <= i < |js| => js[i].status)
  }

  /** Blockers decide first; only without any does the combined status count. */
  function Verdict(js: seq<Judgement>): Status {
    if Failed in Blockers(js) then Failed
    else if Blockers(js) != [] then Blocked
    else Combined(Statuses(js))
  }

  ghost function EvidenceJudgements(ctx: Context, rules: seq<Rule>, evidence: seq<Evidence>): seq<Judgement>
    requires |rules| == |evidence|
  {
    seq(|rules|, i requires 0 <= i < |rules| => JudgeEvidence(ctx, rules[i], evidence[i]))
  }

  ghost function CheckpointJudgements(ctx: Context, maxAge: int, checkpoints: seq<Checkpoint>): seq<Judgement>
    requires |checkpoints| <= |CHECKPOINTS|
  {
    seq(|checkpoints|, i requires 0 <= i < |checkpoints| => JudgeCheckpoint(ctx, maxAge, CHECKPOINTS[i], checkpoints[i]))
  }

  ghost function EventJudgements(evidence: seq<Evidence>, n: nat): seq<Judgement>
    requires n <= |EVENTS|
  {
    if n == 0 then []
    else
      EventJudgements(evidence, n - 1) +
      if Total(evidence, EVENTS[n - 1]) > 0 then [Judgement(Failed, [Failed])] else []
  }

  /** What every input contributes, in the order in which they are read. */
  ghost function Judgements(ctx: Context, policy: Policy, x: Inputs): seq<Judgement>
    requires Fits(policy, x)
  {
    EvidenceJudgements(ctx, policy.rules, x.evidence) +
    CheckpointJudgements(ctx, policy.checkpointAge, x.checkpoints) +
    [JudgeCompatibility(ctx, policy.compatibilityAge, x.compatibility)] +
    [JudgeMutations(ctx, policy.mutationsAge, x.mutations)] +
    EventJudgements(x.evidence, |EVENTS|)
  }

  /** Nothing about this input stands in the way. */
  predicate Good(j: Judgement) {
    j.status == Passed && j.blockers == []
  }

  ghost predicate EveryGood(js: seq<Judgement>) {
    forall i | 0 <= i < |js| :: Good(js[i])
  }

  lemma BlockersOneMore(js: seq<Judgement>, j: Judgement)
    ensures Blockers(js + [j]) == Blockers(js) + j.blockers
    ensures Statuses(js + [j]) == Statuses(js) + [j.status]
  {
    assert (js + [j])[..|js|] == js;
  }

  /** The status of the last check under a name, as a dictionary built from the list keeps it. */
  function StatusOf(checks: seq<(string, Status)>, name: string): Option<Status> {
    if checks == [] then None
    else if checks[|checks| - 1].0 == name then Some(checks[|checks| - 1].1)
    else StatusOf(checks[..|checks| - 1], name)
  }

  /** Every compatibility value that the result publishes is true. */
  predicate CompatibilityHolds(c: Compatibility) {
    c.Compatibility? && forall name | name in COMPATIBILITY_CHECKS :: StatusOf(c.checks, name) == Some(Passed)
  }

  lemma {:induction false} NotPassedEmpty(checks: seq<(string, Status)>)
    ensures NotPassed(checks) == [] <==> forall i | 0 <= i < |checks| :: checks[i].1 == Passed
  {
    if checks != [] {
      NotPassedEmpty(checks[..|checks| - 1]);
      assert forall i | 0 <= i < |checks| - 1 :: checks[i] == checks[..|checks| - 1][i];
    }
  }

  lemma {:induction false} PassedStatusOf(checks: seq<(string, Status)>, k: nat)
    requires forall i | 0 <= i < |checks| :: checks[i].1 == Passed
    requires k < |checks|
    ensures StatusOf(checks, checks[k].0) == Some(Passed)
  {
    if checks[|checks| - 1].0 != checks[k].0 {
      PassedStatusOf(checks[..|checks| - 1], k);
    }
  }

  /** The last consistency check of the composition can never fire. */
  lemma GoodCompatibilityHolds(ctx: Context, maxAge: int, c: Compatibility)
    requires Good(JudgeCompatibility(ctx, maxAge, c))
    ensures CompatibilityHolds(c)
  {
    NotPassedEmpty(c.checks);
    forall name | name in COMPATIBILITY_CHECKS
      ensures StatusOf(c.checks, name) == Some(Passed)
    {
      assert name in CheckNames(c.checks);
      var k :| 0 <= k < |c.checks| && CheckNames(c.checks)[k] == name;
      PassedStatusOf(c.checks, k);
    }
  }

  lemma {:induction false} NoBlockers(js: seq<Judgement>)
    ensures Blockers(js) == [] <==> forall i | 0 <= i < |js| :: js[i].blockers == []
  {
    if js != [] {
      NoBlockers(js[..|js| - 1]);
      assert forall i | 0 <= i < |js| - 1 :: js[i] == js[..|js| - 1][i];
    }
  }

  /** The verdict is `passed` exactly when nothing stands in the way of any input. */
  lemma PassedWhenAllGood(js: seq<Judgement>)
    ensures Verdict(js) == Passed <==> EveryGood(js)
  {
    NoBlockers(js);
    CombinedIsWorst(Statuses(js));
    assert forall i | 0 <= i < |js| :: Statuses(js)[i] == js[i].status;
  }

  lemma {:induction false} EventsGood(evidence: seq<Evidence>, n: nat)
    requires n <= |EVENTS|
    ensures EveryGood(EventJudgements(evidence, n)) <==> forall i | 0 <= i < n :: Total(evidence, EVENTS[i]) <= 0
  {
    hide Total;
    if n > 0 {
      EventsGood(evidence, n - 1);
      var front := EventJudgements(evidence, n - 1);
      var all := EventJudgements(evidence, n);
      assert forall i | 0 <= i < |front| :: all[i] == front[i];
      assert Total(evidence, EVENTS[n - 1]) > 0 ==> !Good(all[|front|]);
    }
  }

  lemma EveryGoodAppend(a: seq<Judgement>, b: seq<Judgement>)
    ensures EveryGood(a + b) <==> EveryGood(a) && EveryGood(b)
  {
    if EveryGood(a + b) {
      assert forall i | 0 <= i < |a| :: a[i] == (a + b)[i];
      assert forall i | 0 <= i < |b| :: b[i] == (a + b)[|a| + i];
    }
  }

  lemma GoodEvidence(ctx: Context, rule: Rule, d: Evidence)
    ensures Good(JudgeEvidence(ctx, rule, d)) <==> EvidenceReady(ctx, rule, d)
  {
    hide ListsExactly;
  }

  lemma GoodCheckpoint(ctx: Context, maxAge: int, name: string, c: Checkpoint)
    ensures Good(JudgeCheckpoint(ctx, maxAge, name, c)) <==> CheckpointReady(ctx, maxAge, name, c)
  {
  }

  lemma GoodCompatibility(ctx: Context, maxAge: int, c: Compatibility)
    ensures Good(JudgeCompatibility(ctx, maxAge, c)) <==> CompatibilityReady(ctx, maxAge, c)
  {
    if c.Compatibility? {
      NotPassedEmpty(c.checks);
    }
  }

  lemma GoodEvidences(ctx: Context, rules: seq<Rule>, evidence: seq<Evidence>)
    requires |rules| == |evidence|
    ensures EveryGood(EvidenceJudgements(ctx, rules, evidence))
       <==> forall i | 0 <= i < |evidence| :: EvidenceReady(ctx, rules[i], evidence[i])
  {
    hide JudgeEvidence, EvidenceReady, Good;
    var js := EvidenceJudgements(ctx, rules, evidence);
    forall i | 0 <= i < |js|
      ensures Good(js[i]) <==> EvidenceReady(ctx, rules[i], evidence[i])
    {
      GoodEvidence(ctx, rules[i], evidence[i]);
    }
  }

  lemma GoodCheckpoints(ctx: Context, maxAge: int, checkpoints: seq<Checkpoint>)
    requires |checkpoints| <= |CHECKPOINTS|
    ensures EveryGood(CheckpointJudgements(ctx, maxAge, checkpoints))
       <==> forall i | 0 <= i < |checkpoints| :: CheckpointReady(ctx, maxAge, CHECKPOINTS[i], checkpoints[i])
  {
    hide JudgeCheckpoint, CheckpointReady, Good;
    var js := CheckpointJudgements(ctx, maxAge, checkpoints);
    forall i | 0 <= i < |js|
      ensures Good(js[i]) <==> CheckpointReady(ctx, maxAge, CHECKPOINTS[i], checkpoints[i])
    {
      GoodCheckpoint(ctx, maxAge, CHECKPOINTS[i], checkpoints[i]);
    }
  }

  /** The verdict is `passed` if and only if the release is ready. */
  lemma PassedExactly(ctx: Context, policy: Policy, x: Inputs)
    requires Fits(policy, x)
    ensures Verdict(Judgements(ctx, policy, x)) == Passed <==> Ready(ctx, policy, x)
  {
    hide Verdict, EveryGood, EvidenceReady, CheckpointReady, CompatibilityReady, MutationsReady, Total;
    hide EvidenceJudgements, CheckpointJudgements, EventJudgements, JudgeCompatibility, JudgeMutations;
    var a := EvidenceJudgements(ctx, policy.rules, x.evidence);
    var b := CheckpointJudgements(ctx, policy.checkpointAge, x.checkpoints);
    var c := [JudgeCompatibility(ctx, policy.compatibilityAge, x.compatibility)];
    var d := [JudgeMutations(ctx, policy.mutationsAge, x.mutations)];
    var e := EventJudgements(x.evidence, |EVENTS|);
    PassedWhenAllGood(a + b + c + d + e);
    EveryGoodAppend(a + b + c + d, e);
    EveryGoodAppend(a + b + c, d);
    EveryGoodAppend(a + b, c);
    EveryGoodAppend(a, b);
    GoodEvidences(ctx, policy.rules, x.evidence);
    GoodCheckpoints(ctx, policy.checkpointAge, x.checkpoints);
    CompatibilityAlone(ctx, policy.compatibilityAge, x.compatibility);
    MutationsAlone(ctx, policy.mutationsAge, x.mutations);
    EventsGood(x.evidence, |EVENTS|);
  }

  lemma CompatibilityAlone(ctx: Context, maxAge: int, c: Compatibility)
    ensures EveryGood([JudgeCompatibility(ctx, maxAge, c)]) <==> CompatibilityReady(ctx, maxAge, c)
  {
    hide CompatibilityReady, JudgeCompatibility;
    GoodCompatibility(ctx, maxAge, c);
    assert EveryGood([JudgeCompatibility(ctx, maxAge, c)]) ==> Good([JudgeCompatibility(ctx, maxAge, c)][0]);
  }

  lemma MutationsAlone(ctx: Context, maxAge: int, m: Mutations)
    ensures EveryGood([JudgeMutations(ctx, maxAge, m)]) <==> MutationsReady(ctx, maxAge, m)
  {
    var j := JudgeMutations(ctx, maxAge, m);
    assert EveryGood([j]) ==> Good([j][0]);
    assert Good(j) <==> MutationsReady(ctx, maxAge, m);
  }

  // ----- the composition -----

  /** The composition: the verdict of everything it has read. */
  method Compose(ctx: Context, policy: Policy, x: Inputs) returns (overall: Status)
    requires Fits(policy, x)
    ensures overall == Verdict(Judgements(ctx, policy, x))
    ensures overall == Passed <==> Ready(ctx, policy, x)
  {
    hide JudgeEvidence, JudgeCheckpoint, JudgeCompatibility, JudgeMutations, Blockers, Statuses, Total, Ready, Combined;
    hide CompatibilityHolds, EventJudgements, EvidenceJudgements;
    var blockers: seq<Status>, statuses: seq<Status>;
    blockers, statuses := ReadEvidence(ctx, policy.rules, x.evidence);
    ghost var js := EvidenceJudgements(ctx, policy.rules, x.evidence);
    assert js + CheckpointJudgements(ctx, policy.checkpointAge, x.checkpoints[..0]) == js;
    ghost var before := js;
    for n := 0 to |x.checkpoints|
      invariant js == before + CheckpointJudgements(ctx, policy.checkpointAge, x.checkpoints[..n])
      invariant blockers == Blockers(js) && statuses == Statuses(js)
    {
      var j := JudgeCheckpoint(ctx, policy.checkpointAge, CHECKPOINTS[n], x.checkpoints[n]);
      BlockersOneMore(js, j);
      CheckpointsOneMore(ctx, policy.checkpointAge, x.checkpoints, n);
      blockers, statuses, js := blockers + j.blockers, statuses + [j.status], js + [j];
    }
    assert x.checkpoints[..|x.checkpoints|] == x.checkpoints;
    var k := AssessCompatibility(ctx, policy.compatibilityAge, x.compatibility);
    BlockersOneMore(js, k);
    blockers, statuses, js := blockers + k.blockers, statuses + [k.status], js + [k];
    var m := JudgeMutations(ctx, policy.mutationsAge, x.mutations);
    BlockersOneMore(js, m);
    blockers, statuses, js := blockers + m.blockers, statuses + [m.status], js + [m];
    blockers, statuses := ReadEvents(x.evidence, js, blockers, statuses);
    assert js + EventJudgements(x.evidence, |EVENTS|) == Judgements(ctx, policy, x);
    if Failed in blockers {
      overall := Failed;
    } else if blockers != [] {
      overall := Blocked;
    } else {
      overall := CombineStatus(statuses);
    }
    PassedExactly(ctx, policy, x);
    if overall == Passed {
      ReadyIsCompatible(ctx, policy, x);
    }
    if overall == Passed && !CompatibilityHolds(x.compatibility) {
      overall := Failed;
    }
  }

  method ReadEvents(evidence: seq<Evidence>, ghost before: seq<Judgement>, b: seq<Status>, s: seq<Status>)
    returns (blockers: seq<Status>, statuses: seq<Status>)
    requires b == Blockers(before) && s == Statuses(before)
    ensures blockers == Blockers(before + EventJudgements(evidence, |EVENTS|))
    ensures statuses == Statuses(before + EventJudgements(evidence, |EVENTS|))
  {
    hide Total, Blockers, Statuses;
    var counts := CorrectnessCounts(evidence);
    blockers, statuses := b, s;
    ghost var js := before;
    for n := 0 to |EVENTS|
      invariant js == before + EventJudgements(evidence, n)
      invariant blockers == Blockers(js) && statuses == Statuses(js)
    {
      if counts[EVENTS[n]] > 0 {
        BlockersOneMore(js, Judgement(Failed, [Failed]));
        blockers, statuses, js := blockers + [Failed], statuses + [Failed], js + [Judgement(Failed, [Failed])];
      }
    }
  }

  lemma ReadyIsCompatible(ctx: Context, policy: Policy, x: Inputs)
    requires Fits(policy, x) && Ready(ctx, policy, x)
    ensures CompatibilityHolds(x.compatibility)
  {
    hide CompatibilityReady, CompatibilityHolds, EvidenceReady, CheckpointReady, MutationsReady, JudgeCompatibility;
    GoodCompatibility(ctx, policy.compatibilityAge, x.compatibility);
    GoodCompatibilityHolds(ctx, policy.compatibilityAge, x.compatibility);
  }

  lemma CheckpointsOneMore(ctx: Context, maxAge: int, checkpoints: seq<Checkpoint>, n: nat)
    requires n < |checkpoints| <= |CHECKPOINTS|
    ensures CheckpointJudgements(ctx, maxAge, checkpoints[..n + 1])
         == CheckpointJudgements(ctx, maxAge, checkpoints[..n])
          + [JudgeCheckpoint(ctx, maxAge, CHECKPOINTS[n], checkpoints[n])]
  {
    hide JudgeCheckpoint;
  }

  method ReadEvidence(ctx: Context, rules: seq<Rule>, evidence: seq<Evidence>)
    returns (blockers: seq<Status>, statuses: seq<Status>)
    requires |rules| == |evidence|
    ensures blockers == Blockers(EvidenceJudgements(ctx, rules, evidence))
    ensures statuses == Statuses(EvidenceJudgements(ctx, rules, evidence))
  {
    hide JudgeEvidence;
    blockers, statuses := [], [];
    for n := 0 to |rules|
      invariant blockers == Blockers(EvidenceJudgements(ctx, rules[..n], evidence[..n]))
      invariant statuses == Statuses(EvidenceJudgements(ctx, rules[..n], evidence[..n]))
    {
      var j := AssessEvidence(ctx, rules[n], evidence[n]);
      BlockersOneMore(EvidenceJudgements(ctx, rules[..n], evidence[..n]), j);
      assert EvidenceJudgements(ctx, rules[..n + 1], evidence[..n + 1])
          == EvidenceJudgements(ctx, rules[..n], evidence[..n]) + [j];
      blockers, statuses := blockers + j.blockers, statuses + [j.status];
    }
    assert rules[..|rules|] == rules && evidence[..|evidence|] == evidence;
  }

  // ----- severity -----

  /** When the verdict is `failed`: on a failed blocker, or, with no blocker at all, on any failed or unknown status. */
  lemma FailedExactly(js: seq<Judgement>)
    ensures Verdict(js) == Failed
       <==> Failed in Blockers(js) || (Blockers(js) == [] && exists i | 0 <= i < |js| :: Rank(js[i].status) == 2)
  {
    var statuses := Statuses(js);
    CombinedIsWorst(statuses);
    assert forall i | 0 <= i < |js| :: statuses[i] == js[i].status;
    if Combined(statuses) == Failed {
      var i :| 0 <= i < |statuses| && Rank(statuses[i]) == 2;
      assert Rank(js[i].status) == 2;
    }
  }

  lemma {:induction false} BlockersHold(js: seq<Judgement>, i: nat, s: Status)
    requires i < |js| && s in js[i].blockers
    ensures s in Blockers(js)
  {
    if i < |js| - 1 {
      BlockersHold(js[..|js| - 1], i, s);
    }
  }

  /** Failed or invalid primary evidence always makes the verdict `failed`, whatever else is missing. */
  lemma FailedEvidenceFails(ctx: Context, policy: Policy, x: Inputs, i: nat)
    requires Fits(policy, x) && i < |x.evidence|
    requires Rank(JudgeEvidence(ctx, policy.rules[i], x.evidence[i]).status) == 2
    ensures Verdict(Judgements(ctx, policy, x)) == Failed
  {
    hide ValidEvidence, Total, Combined, JudgeCheckpoint, JudgeCompatibility, JudgeMutations;
    var j := JudgeEvidence(ctx, policy.rules[i], x.evidence[i]);
    assert Failed in j.blockers by {
      assert j.blockers[|j.blockers| - 1] == Failed;
    }
    assert Judgements(ctx, policy, x)[i] == j;
    BlockersHold(Judgements(ctx, policy, x), i, Failed);
  }

  lemma {:induction false} NoBlockerIsFailed(js: seq<Judgement>)
    requires forall i | 0 <= i < |js| :: Failed !in js[i].blockers
    ensures Failed !in Blockers(js)
  {
    if js != [] {
      NoBlockerIsFailed(js[..|js| - 1]);
    }
  }

  const ALL_COMPATIBLE := [
    ("migrations-expand-compatible", Passed), ("realtime-protocol-negotiated", Passed),
    ("native-fallback-available", Passed), ("config-versioned", Passed)]

  lemma AllCompatibleIsExact()
    ensures ExactSet(CheckNames(ALL_COMPATIBLE), COMPATIBILITY_CHECKS)
    ensures NotPassed(ALL_COMPATIBLE) == []
  {
    NotPassedEmpty(ALL_COMPATIBLE);
    var names := CheckNames(ALL_COMPATIBLE);
    assert names == [
      "migrations-expand-compatible", "realtime-protocol-negotiated", "native-fallback-available", "config-versioned"];
    assert |names[0]| == 28 && |names[1]| == 28 && |names[2]| == 25 && |names[3]| == 16;
    assert names[0][0] != names[1][0];
  }

  /** Not so for the rest: a failed compatibility document whose checks all passed may be reported as `blocked` only. */
  lemma FailedCompatibilityCanBeBlocked(ctx: Context, policy: Policy) returns (x: Inputs)
    requires policy.compatibilityAge >= 0
    ensures Fits(policy, x)
    ensures ValidCompatibility(ctx, x.compatibility) && x.compatibility.status == Failed
    ensures Verdict(Judgements(ctx, policy, x)) == Blocked
  {
    hide Combined, ExactSet, CheckNames, COMPATIBILITY_CHECKS, Total, EventJudgements;
    var none := seq(|CHECKPOINTS|, i => NoCheckpoint);
    x := Inputs(
      seq(|policy.rules|, i => Missing), none,
      Compatibility(0, ctx.gitSha, ctx.releaseId, At(ctx.now), Failed, ALL_COMPATIBLE), NoMutations);
    AllCompatibleIsExact();
    var js := Judgements(ctx, policy, x);
    SilentEvents(x.evidence, |EVENTS|);
    assert forall i | 0 <= i < |js| :: js[i].blockers in {[], [Blocked]};
    assert js[0].blockers == [Blocked];
    BlockersHold(js, 0, Blocked);
    NoBlockerIsFailed(js);
  }

  ghost predicate Silent(evidence: seq<Evidence>) {
    forall i | 0 <= i < |evidence| :: evidence[i].Document? ==> evidence[i].events == []
  }

  lemma {:induction false} SilentTotal(evidence: seq<Evidence>, name: string)
    requires Silent(evidence)
    ensures Total(evidence, name) == 0
  {
    if evidence != [] {
      SilentTotal(evidence[..|evidence| - 1], name);
    }
  }

  lemma {:induction false} SilentEvents(evidence: seq<Evidence>, n: nat)
    requires n <= |EVENTS| && Silent(evidence)
    ensures EventJudgements(evidence, n) == []
  {
    if n > 0 {
      SilentEvents(evidence, n - 1);
      SilentTotal(evidence, EVENTS[n - 1]);
    }
  }

  // ----- the verdict on the inputs -----

  /** Dated, and no older than the allowed number of whole seconds. */
  predicate Fresh(time: Time, now: int, maxAge: int) {
    time.At? && maxAge >= 0 && now - time.micros < (maxAge + 1) * 1_000_000
  }

  lemma FreshExactly(time: Time, now: int, maxAge: int)
    ensures time.At? ==> (Stale(time, now, maxAge) <==> !Fresh(time, now, maxAge))
    ensures FutureDated(time, now) <==> time.At? && time.micros > now + 300_000_000
  {
  }

  /** Complete and bound to the release, and dated at most five minutes ahead. */
  ghost predicate SoundEvidence(ctx: Context, kind: Kind, d: Evidence) {
    && d.Document? && d.schemaErrors == 0 && d.gitSha == ctx.gitSha && d.releaseId == ctx.releaseId
    && (d.environment == None || d.environment == Some(ctx.environment))
    && d.time.At? && d.time.micros <= ctx.now + 300_000_000
    && (Required(kind).Some? ==> ExactSet(d.listed, Required(kind).value))
    && (kind == Cutover ==> ExactSet(d.bundle, CUTOVER_BUNDLE))
    && (kind == PlatformProbe ==> d.observedReleaseId == d.releaseId)
  }

  predicate SoundCheckpoint(ctx: Context, name: string, c: Checkpoint) {
    c.Checkpoint? && c.schemaErrors == 0 && c.name == name && c.gitSha == ctx.gitSha && c.releaseId == ctx.releaseId && c.time.At?
  }

  ghost predicate SoundCompatibility(ctx: Context, c: Compatibility) {
    && c.Compatibility? && c.schemaErrors == 0 && c.gitSha == ctx.gitSha && c.releaseId == ctx.releaseId && c.time.At?
    && ExactSet(CheckNames(c.checks), COMPATIBILITY_CHECKS)
  }

  predicate SoundMutations(ctx: Context, m: Mutations) {
    && m.Mutations? && m.schemaErrors == 0 && m.gitSha == ctx.gitSha && m.releaseId == ctx.releaseId
    && m.environment == ctx.environment && m.time.At?
  }

  predicate Bad(s: Status) {
    s == Failed || s == Unknown
  }

  // The ways in which one input alone fails the release.

  ghost predicate EvidenceFails(ctx: Context, kind: Kind, d: Evidence) {
    d.Unreadable? || (d.Document? && (!SoundEvidence(ctx, kind, d) || Bad(d.status) || (d.status == Passed && !d.live)))
  }

  predicate CheckpointFails(ctx: Context, name: string, c: Checkpoint) {
    c.UnreadableCheckpoint? || (c.Checkpoint? && (!SoundCheckpoint(ctx, name, c) || Failed in c.blockers))
  }

  ghost predicate CompatibilityFails(ctx: Context, c: Compatibility) {
    || c.UnreadableCompatibility?
    || (c.Compatibility? && (!SoundCompatibility(ctx, c) || exists i | 0 <= i < |c.checks| :: c.checks[i].1 == Failed))
  }

  predicate MutationsFail(ctx: Context, m: Mutations) {
    m.UnreadableMutations? || (m.Mutations? && (!SoundMutations(ctx, m) || m.status == Failed))
  }

  // Whether a part of the judgements has a failed blocker, no blocker at all, or a bad status.

  ghost predicate HasFailed(js: seq<Judgement>) {
    exists i | 0 <= i < |js| :: Failed in js[i].blockers
  }

  ghost predicate Unblocked(js: seq<Judgement>) {
    forall i | 0 <= i < |js| :: js[i].blockers == []
  }

  ghost predicate HasBad(js: seq<Judgement>) {
    exists i | 0 <= i < |js| :: Bad(js[i].status)
  }

  lemma PartsAppend(a: seq<Judgement>, b: seq<Judgement>)
    ensures HasFailed(a + b) <==> HasFailed(a) || HasFailed(b)
    ensures Unblocked(a + b) <==> Unblocked(a) && Unblocked(b)
    ensures HasBad(a + b) <==> HasBad(a) || HasBad(b)
  {
    assert forall i | 0 <= i < |a| :: (a + b)[i] == a[i];
    assert forall i | 0 <= i < |b| :: (a + b)[|a| + i] == b[i];
    assert forall i | |a| <= i < |a + b| :: (a + b)[i] == b[i - |a|];
  }

  lemma PartsOne(j: Judgement)
    ensures HasFailed([j]) <==> Failed in j.blockers
    ensures Unblocked([j]) <==> j.blockers == []
    ensures HasBad([j]) <==> Bad(j.status)
  {
    assert [j][0] == j;
  }

  lemma {:induction false} FailedBlocker(js: seq<Judgement>)
    ensures Failed in Blockers(js) <==> HasFailed(js)
  {
    if js == [] {
    } else {
      var n := |js| - 1;
      FailedBlocker(js[..n]);
      PartsAppend(js[..n], [js[n]]);
      PartsOne(js[n]);
      assert js == js[..n] + [js[n]];
    }
  }

  lemma VerdictFails(js: seq<Judgement>)
    ensures Verdict(js) == Failed <==> HasFailed(js) || (Unblocked(js) && HasBad(js))
  {
    hide Verdict, Blockers;
    FailedExactly(js);
    FailedBlocker(js);
    NoBlockers(js);
    assert forall i | 0 <= i < |js| :: Bad(js[i].status) <==> Rank(js[i].status) == 2;
  }

  /** Evidence that is sound, fresh, passed and live. */
  ghost predicate Proves(ctx: Context, rule: Rule, d: Evidence) {
    SoundEvidence(ctx, rule.kind, d) && Fresh(d.time, ctx.now, rule.maxAge) && d.status == Passed && d.live
  }

  lemma EvidencePart(ctx: Context, rule: Rule, d: Evidence)
    ensures
      var j := JudgeEvidence(ctx, rule, d);
      && (Failed in j.blockers <==> EvidenceFails(ctx, rule.kind, d))
      && (j.blockers == [] <==> Proves(ctx, rule, d))
      && j.status == (if d.Missing? then Blocked else if EvidenceFails(ctx, rule.kind, d) then Failed else d.status)
  {
    hide ExactSet, Required, Stale, FutureDated;
    if d.Document? {
      FreshExactly(d.time, ctx.now, rule.maxAge);
      assert ValidEvidence(ctx, rule, d) <==> SoundEvidence(ctx, rule.kind, d);
    }
  }

  lemma CheckpointPart(ctx: Context, maxAge: int, name: string, c: Checkpoint)
    ensures
      var j := JudgeCheckpoint(ctx, maxAge, name, c);
      && (Failed in j.blockers <==> CheckpointFails(ctx, name, c))
      && (j.blockers == [] <==> SoundCheckpoint(ctx, name, c) && Fresh(c.time, ctx.now, maxAge) && c.blockers == [])
      && j.status == (if c.NoCheckpoint? then Blocked else if !SoundCheckpoint(ctx, name, c) then Failed else c.status)
  {
    hide Stale, FutureDated;
    if c.Checkpoint? {
      FreshExactly(c.time, ctx.now, maxAge);
    }
  }

  lemma {:induction false} NotPassedHolds(checks: seq<(string, Status)>)
    ensures Failed in NotPassed(checks) <==> exists i | 0 <= i < |checks| :: checks[i].1 == Failed
  {
    if checks != [] {
      var n := |checks| - 1;
      NotPassedHolds(checks[..n]);
      assert NotPassed(checks) == NotPassed(checks[..n]) + if checks[n].1 == Passed then [] else [checks[n].1];
      assert forall i | 0 <= i < n :: checks[..n][i] == checks[i];
    }
  }

  lemma CompatibilityPart(ctx: Context, maxAge: int, c: Compatibility)
    ensures
      var j := JudgeCompatibility(ctx, maxAge, c);
      && (Failed in j.blockers <==> CompatibilityFails(ctx, c))
      && (j.blockers == [] <==>
            && SoundCompatibility(ctx, c) && Fresh(c.time, ctx.now, maxAge)
            && forall i | 0 <= i < |c.checks| :: c.checks[i].1 == Passed)
      && j.status == (if c.NoCompatibility? then Blocked else if !SoundCompatibility(ctx, c) then Failed else c.status)
  {
    hide ExactSet, CheckNames, COMPATIBILITY_CHECKS, NotPassed, Stale, FutureDated;
    if c.Compatibility? {
      FreshExactly(c.time, ctx.now, maxAge);
      NotPassedHolds(c.checks);
      NotPassedEmpty(c.checks);
    }
  }

  lemma MutationsPart(ctx: Context, maxAge: int, m: Mutations)
    ensures
      var j := JudgeMutations(ctx, maxAge, m);
      && (Failed in j.blockers <==> MutationsFail(ctx, m))
      && (j.blockers == [] <==> SoundMutations(ctx, m) && Fresh(m.time, ctx.now, maxAge) && m.status == Passed)
      && j.status == (if m.NoMutations? then Blocked else if !SoundMutations(ctx, m) then Failed else m.status)
  {
    hide Stale, FutureDated;
    if m.Mutations? {
      FreshExactly(m.time, ctx.now, maxAge);
    }
  }

  lemma {:induction false} EventsPart(evidence: seq<Evidence>, n: nat)
    requires n <= |EVENTS|
    ensures
      var js := EventJudgements(evidence, n);
      && (HasFailed(js) <==> exists i | 0 <= i < n :: Total(evidence, EVENTS[i]) > 0)
      && (Unblocked(js) <==> !HasFailed(js))
      && (HasBad(js) <==> HasFailed(js))
  {
    hide Total, EVENTS;
    if n > 0 {
      EventsPart(evidence, n - 1);
      if Total(evidence, EVENTS[n - 1]) > 0 {
        PartsAppend(EventJudgements(evidence, n - 1), [Judgement(Failed, [Failed])]);
        PartsOne(Judgement(Failed, [Failed]));
      } else {
        assert EventJudgements(evidence, n - 1) + [] == EventJudgements(evidence, n - 1);
      }
    }
  }

  /** Something unsafe was observed. */
  ghost predicate EventSeen(evidence: seq<Evidence>) {
    exists name | name in {
      "authorization_bypass", "secret_exposure", "duplicate_durable_identity", "event_before_commit", "durable_event_loss"}
      :: Total(evidence, name) > 0
  }

  lemma EventSeenExactly(evidence: seq<Evidence>)
    ensures EventSeen(evidence) <==> exists i | 0 <= i < |EVENTS| :: Total(evidence, EVENTS[i]) > 0
  {
    hide Total;
    if EventSeen(evidence) {
      var name :| name in {
        "authorization_bypass", "secret_exposure", "duplicate_durable_identity", "event_before_commit", "durable_event_loss"}
        && Total(evidence, name) > 0;
      assert name in [EVENTS[0], EVENTS[1], EVENTS[2], EVENTS[3], EVENTS[4]];
    }
  }

  /** No input has a blocker, although a checkpoint or the compatibility document may still not say `passed`. */
  ghost predicate NothingBlocks(ctx: Context, policy: Policy, x: Inputs)
    requires Fits(policy, x)
  {
    && (forall i | 0 <= i < |x.evidence| :: Proves(ctx, policy.rules[i], x.evidence[i]))
    && (forall i | 0 <= i < |x.checkpoints| ::
          && SoundCheckpoint(ctx, CHECKPOINTS[i], x.checkpoints[i])
          && Fresh(x.checkpoints[i].time, ctx.now, policy.checkpointAge) && x.checkpoints[i].blockers == [])
    && SoundCompatibility(ctx, x.compatibility) && Fresh(x.compatibility.time, ctx.now, policy.compatibilityAge)
    && (forall i | 0 <= i < |x.compatibility.checks| :: x.compatibility.checks[i].1 == Passed)
    && SoundMutations(ctx, x.mutations) && Fresh(x.mutations.time, ctx.now, policy.mutationsAge) && x.mutations.status == Passed
    && !EventSeen(x.evidence)
  }

  /** Some input alone fails the release. */
  ghost predicate InputFails(ctx: Context, policy: Policy, x: Inputs)
    requires Fits(policy, x)
  {
    || (exists i | 0 <= i < |x.evidence| :: EvidenceFails(ctx, policy.rules[i].kind, x.evidence[i]))
    || (exists i | 0 <= i < |x.checkpoints| :: CheckpointFails(ctx, CHECKPOINTS[i], x.checkpoints[i]))
    || CompatibilityFails(ctx, x.compatibility)
    || MutationsFail(ctx, x.mutations)
    || EventSeen(x.evidence)
  }

  lemma EvidenceParts(ctx: Context, rules: seq<Rule>, evidence: seq<Evidence>)
    requires |rules| == |evidence|
    ensures
      var js := EvidenceJudgements(ctx, rules, evidence);
      && (HasFailed(js) <==> exists i | 0 <= i < |evidence| :: EvidenceFails(ctx, rules[i].kind, evidence[i]))
      && (Unblocked(js) <==> forall i | 0 <= i < |evidence| :: Proves(ctx, rules[i], evidence[i]))
      && (Unblocked(js) ==> !HasBad(js))
  {
    hide JudgeEvidence, EvidenceFails, Proves;
    var js := EvidenceJudgements(ctx, rules, evidence);
    forall i | 0 <= i < |js|
      ensures Failed in js[i].blockers <==> EvidenceFails(ctx, rules[i].kind, evidence[i])
      ensures js[i].blockers == [] <==> Proves(ctx, rules[i], evidence[i])
      ensures js[i].blockers == [] ==> js[i].status == Passed
    {
      EvidencePart(ctx, rules[i], evidence[i]);
      if Proves(ctx, rules[i], evidence[i]) {
        ProvesIsSilent(ctx, rules[i], evidence[i]);
      }
    }
  }

  lemma ProvesIsSilent(ctx: Context, rule: Rule, d: Evidence)
    requires Proves(ctx, rule, d)
    ensures !d.Missing? && !EvidenceFails(ctx, rule.kind, d) && d.status == Passed
  {
    hide ExactSet, Required;
  }

  lemma CheckpointParts(ctx: Context, maxAge: int, checkpoints: seq<Checkpoint>)
    requires |checkpoints| <= |CHECKPOINTS|
    ensures
      var js := CheckpointJudgements(ctx, maxAge, checkpoints);
      && (HasFailed(js) <==> exists i | 0 <= i < |checkpoints| :: CheckpointFails(ctx, CHECKPOINTS[i], checkpoints[i]))
      && (Unblocked(js) <==> forall i | 0 <= i < |checkpoints| ::
            && SoundCheckpoint(ctx, CHECKPOINTS[i], checkpoints[i])
            && Fresh(checkpoints[i].time, ctx.now, maxAge) && checkpoints[i].blockers == [])
      && (Unblocked(js) ==>
            (HasBad(js) <==> exists i | 0 <= i < |checkpoints| :: checkpoints[i].Checkpoint? && Bad(checkpoints[i].status)))
  {
    hide JudgeCheckpoint, CheckpointFails, Fresh, CHECKPOINTS;
    var js := CheckpointJudgements(ctx, maxAge, checkpoints);
    forall i | 0 <= i < |js|
      ensures Failed in js[i].blockers <==> CheckpointFails(ctx, CHECKPOINTS[i], checkpoints[i])
      ensures js[i].blockers == [] <==>
        && SoundCheckpoint(ctx, CHECKPOINTS[i], checkpoints[i])
        && Fresh(checkpoints[i].time, ctx.now, maxAge) && checkpoints[i].blockers == []
      ensures js[i].blockers == [] ==> js[i].status == checkpoints[i].status
    {
      CheckpointPart(ctx, maxAge, CHECKPOINTS[i], checkpoints[i]);
    }
  }

  lemma JudgementParts(ctx: Context, policy: Policy, x: Inputs)
    requires Fits(policy, x)
    ensures
      var js := Judgements(ctx, policy, x);
      && (HasFailed(js) <==> InputFails(ctx, policy, x))
      && (Unblocked(js) <==> NothingBlocks(ctx, policy, x))
      && (Unblocked(js) ==>
            (HasBad(js) <==>
               || (exists i | 0 <= i < |x.checkpoints| :: x.checkpoints[i].Checkpoint? && Bad(x.checkpoints[i].status))
               || Bad(x.compatibility.status)))
  {
    hide HasFailed, Unblocked, HasBad, Proves, EvidenceFails, CheckpointFails, CompatibilityFails, MutationsFail, EventSeen, Fresh, Bad;
    hide EvidenceJudgements, CheckpointJudgements, EventJudgements, JudgeCompatibility, JudgeMutations, CHECKPOINTS, EVENTS;
    hide SoundCheckpoint;
    var a := EvidenceJudgements(ctx, policy.rules, x.evidence);
    var b := CheckpointJudgements(ctx, policy.checkpointAge, x.checkpoints);
    var c := JudgeCompatibility(ctx, policy.compatibilityAge, x.compatibility);
    var d := JudgeMutations(ctx, policy.mutationsAge, x.mutations);
    var e := EventJudgements(x.evidence, |EVENTS|);
    PartsAppend(a + b + [c] + [d], e);
    PartsAppend(a + b + [c], [d]);
    PartsAppend(a + b, [c]);
    PartsAppend(a, b);
    PartsOne(c);
    PartsOne(d);
    EvidenceParts(ctx, policy.rules, x.evidence);
    CheckpointParts(ctx, policy.checkpointAge, x.checkpoints);
    CompatibilityPart(ctx, policy.compatibilityAge, x.compatibility);
    MutationsPart(ctx, policy.mutationsAge, x.mutations);
    EventsPart(x.evidence, |EVENTS|);
    EventSeenExactly(x.evidence);
    PassedIsNotBad();
  }

  lemma PassedIsNotBad()
    ensures !Bad(Passed)
  {
  }

  /**
   The verdict on the inputs themselves: `failed` exactly if one of them fails the release by itself, or if nothing is
   blocked and a checkpoint or the compatibility document does not pass; `passed` exactly if nothing is blocked and they do.
   */
  lemma VerdictOnInputs(ctx: Context, policy: Policy, x: Inputs)
    requires Fits(policy, x)
    ensures Verdict(Judgements(ctx, policy, x)) == Failed <==>
      || InputFails(ctx, policy, x)
      || (NothingBlocks(ctx, policy, x) &&
            (Bad(x.compatibility.status) || exists i | 0 <= i < |x.checkpoints| :: Bad(x.checkpoints[i].status)))
    ensures Verdict(Judgements(ctx, policy, x)) == Passed <==>
      && NothingBlocks(ctx, policy, x)
      && x.compatibility.status == Passed && forall i | 0 <= i < |x.checkpoints| :: x.checkpoints[i].status == Passed
  {
    hide Verdict, Judgements, NothingBlocks, InputFails, HasFailed, HasBad, Unblocked, Ready;
    JudgementParts(ctx, policy, x);
    VerdictFails(Judgements(ctx, policy, x));
    PassedExactly(ctx, policy, x);
    ReadyExactly(ctx, policy, x);
    AllCheckpoints(ctx, policy, x);
  }

  lemma AllCheckpoints(ctx: Context, policy: Policy, x: Inputs)
    requires Fits(policy, x)
    ensures NothingBlocks(ctx, policy, x) ==> x.compatibility.Compatibility? && forall i | 0 <= i < |x.checkpoints| :: x.checkpoints[i].Checkpoint?
  {
    hide Proves, Fresh, EventSeen, CHECKPOINTS;
  }

  /** `Ready`, which the verdict `passed` was proved to mean, on the fields of the inputs. */
  lemma ReadyExactly(ctx: Context, policy: Policy, x: Inputs)
    requires Fits(policy, x)
    ensures Ready(ctx, policy, x) <==>
      && NothingBlocks(ctx, policy, x)
      && x.compatibility.status == Passed && forall i | 0 <= i < |x.checkpoints| :: x.checkpoints[i].status == Passed
  {
    hide EvidenceReady, Proves, Fresh, Stale, EventSeen, Total, CHECKPOINTS, EVENTS, ExactSet, COMPATIBILITY_CHECKS, CheckNames;
    forall i | 0 <= i < |x.evidence|
      ensures EvidenceReady(ctx, policy.rules[i], x.evidence[i]) <==> Proves(ctx, policy.rules[i], x.evidence[i])
    {
      GoodEvidence(ctx, policy.rules[i], x.evidence[i]);
      EvidencePart(ctx, policy.rules[i], x.evidence[i]);
    }
    forall i | 0 <= i < |x.checkpoints| && x.checkpoints[i].Checkpoint?
      ensures x.checkpoints[i].time.At? ==>
        (Stale(x.checkpoints[i].time, ctx.now, policy.checkpointAge) <==> !Fresh(x.checkpoints[i].time, ctx.now, policy.checkpointAge))
    {
      FreshExactly(x.checkpoints[i].time, ctx.now, policy.checkpointAge);
    }
    if x.compatibility.Compatibility? {
      FreshExactly(x.compatibility.time, ctx.now, policy.compatibilityAge);
    }
    if x.mutations.Mutations? {
      FreshExactly(x.mutations.time, ctx.now, policy.mutationsAge);
    }
    EventSeenExactly(x.evidence);
  }

  // ----- worse inputs, older inputs, a later hour -----

  ghost predicate OlderTime(a: Time, b: Time) {
    if a.At? then b.At? && b.micros <= a.micros else b == a
  }

  predicate WorseStatus(a: Status, b: Status) {
    b == a || b != Passed
  }

  ghost predicate MoreEvents(a: seq<(string, Option<int>)>, b: seq<(string, Option<int>)>) {
    a <= b && forall i | |a| <= i < |b| :: b[i].1.Some? ==> b[i].1.value >= 0
  }

  /** `b` is `a` made worse: removed, unreadable, older, degraded, less valid, not live, or with more events. */
  ghost predicate WorseEvidence(a: Evidence, b: Evidence) {
    || !b.Document?
    || (&& a.Document?
        && b == a.(schemaErrors := b.schemaErrors, time := b.time, status := b.status, live := b.live, events := b.events)
        && a.schemaErrors <= b.schemaErrors
        && OlderTime(a.time, b.time)
        && WorseStatus(a.status, b.status)
        && (b.live ==> a.live)
        && MoreEvents(a.events, b.events))
  }

  ghost predicate WorseCheckpoint(a: Checkpoint, b: Checkpoint) {
    || !b.Checkpoint?
    || (&& a.Checkpoint?
        && b == a.(schemaErrors := b.schemaErrors, time := b.time, status := b.status, blockers := b.blockers)
        && a.schemaErrors <= b.schemaErrors && OlderTime(a.time, b.time) && WorseStatus(a.status, b.status)
        && a.blockers <= b.blockers)
  }

  ghost predicate WorseChecks(a: seq<(string, Status)>, b: seq<(string, Status)>) {
    |a| == |b| && forall i | 0 <= i < |a| :: a[i].0 == b[i].0 && WorseStatus(a[i].1, b[i].1)
  }

  ghost predicate WorseCompatibility(a: Compatibility, b: Compatibility) {
    || !b.Compatibility?
    || (&& a.Compatibility?
        && b == a.(schemaErrors := b.schemaErrors, time := b.time, status := b.status, checks := b.checks)
        && a.schemaErrors <= b.schemaErrors && OlderTime(a.time, b.time) && WorseStatus(a.status, b.status)
        && WorseChecks(a.checks, b.checks))
  }

  ghost predicate WorseMutations(a: Mutations, b: Mutations) {
    || !b.Mutations?
    || (&& a.Mutations?
        && b == a.(schemaErrors := b.schemaErrors, time := b.time, status := b.status)
        && a.schemaErrors <= b.schemaErrors && OlderTime(a.time, b.time) && WorseStatus(a.status, b.status))
  }

  ghost predicate WorseInputs(x: Inputs, y: Inputs) {
    && |x.evidence| == |y.evidence| && |x.checkpoints| == |y.checkpoints|
    && (forall i | 0 <= i < |x.evidence| :: WorseEvidence(x.evidence[i], y.evidence[i]))
    && (forall i | 0 <= i < |x.checkpoints| :: WorseCheckpoint(x.checkpoints[i], y.checkpoints[i]))
    && WorseCompatibility(x.compatibility, y.compatibility)
    && WorseMutations(x.mutations, y.mutations)
  }

  ghost predicate Ahead(ctx: Context, d: Evidence) {
    d.Document? && FutureDated(d.time, ctx.now)
  }

  lemma AgeGrows(now: int, later: nat, a: Time, b: Time, maxAge: int)
    requires a.At? && OlderTime(a, b) && !Stale(b, now + later, maxAge)
    ensures !Stale(a, now, maxAge)
  {
    if now >= a.micros {
      DivisionGrows(now - a.micros, now + later - b.micros);
    }
  }

  lemma DivisionGrows(a: nat, b: nat)
    requires a <= b
    ensures a / SECOND <= b / SECOND
  {
  }

  lemma EvidenceBefore(ctx: Context, later: nat, rule: Rule, a: Evidence, b: Evidence)
    requires WorseEvidence(a, b) && EvidenceReady(ctx.(now := ctx.now + later), rule, b)
    ensures EvidenceReady(ctx, rule, a) <==> !Ahead(ctx, a)
  {
    hide ExactSet, Age, Required;
    if a.time.At? {
      AgeGrows(ctx.now, later, a.time, b.time, rule.maxAge);
    }
  }

  lemma CheckpointBefore(ctx: Context, later: nat, maxAge: int, name: string, a: Checkpoint, b: Checkpoint)
    requires WorseCheckpoint(a, b) && CheckpointReady(ctx.(now := ctx.now + later), maxAge, name, b)
    ensures CheckpointReady(ctx, maxAge, name, a)
  {
    hide Age;
    AgeGrows(ctx.now, later, a.time, b.time, maxAge);
  }

  lemma CompatibilityBefore(ctx: Context, later: nat, maxAge: int, a: Compatibility, b: Compatibility)
    requires WorseCompatibility(a, b) && CompatibilityReady(ctx.(now := ctx.now + later), maxAge, b)
    ensures CompatibilityReady(ctx, maxAge, a)
  {
    hide Age, ExactSet;
    assert CheckNames(a.checks) == CheckNames(b.checks);
    AgeGrows(ctx.now, later, a.time, b.time, maxAge);
  }

  lemma MutationsBefore(ctx: Context, later: nat, maxAge: int, a: Mutations, b: Mutations)
    requires WorseMutations(a, b) && MutationsReady(ctx.(now := ctx.now + later), maxAge, b)
    ensures MutationsReady(ctx, maxAge, a)
  {
    hide Age;
    AgeGrows(ctx.now, later, a.time, b.time, maxAge);
  }

  lemma {:induction false} SumGrows(a: seq<(string, Option<int>)>, b: seq<(string, Option<int>)>, name: string)
    requires MoreEvents(a, b)
    ensures Sum(a, name) <= Sum(b, name)
  {
    if |a| < |b| {
      SumGrows(a, b[..|b| - 1], name);
    } else {
      assert a == b;
    }
  }

  lemma {:induction false} TotalGrows(x: seq<Evidence>, y: seq<Evidence>, name: string)
    requires |x| == |y|
    requires forall i | 0 <= i < |x| :: WorseEvidence(x[i], y[i]) && y[i].Document?
    ensures Total(x, name) <= Total(y, name)
  {
    if x != [] {
      var n := |x| - 1;
      TotalGrows(x[..n], y[..n], name);
      SumGrows(x[n].events, y[n].events, name);
    }
  }

  /**
   If the worse inputs pass at the same or a later time, the better ones pass now, unless one of their primary documents
   is dated ahead of its time; and then they do not.
   */
  lemma WorseNeverHelps(ctx: Context, later: nat, policy: Policy, x: Inputs, y: Inputs)
    requires Fits(policy, x) && WorseInputs(x, y)
    requires Verdict(Judgements(ctx.(now := ctx.now + later), policy, y)) == Passed
    ensures Verdict(Judgements(ctx, policy, x)) == Passed
       <==> forall i | 0 <= i < |x.evidence| :: !Ahead(ctx, x.evidence[i])
  {
    hide Verdict, Judgements, EvidenceReady, CheckpointReady, CompatibilityReady, MutationsReady, Ahead, Total;
    hide WorseEvidence, WorseCheckpoint, WorseCompatibility, WorseMutations;
    PassedExactly(ctx, policy, x);
    PassedExactly(ctx.(now := ctx.now + later), policy, y);
    forall i | 0 <= i < |x.evidence|
      ensures EvidenceReady(ctx, policy.rules[i], x.evidence[i]) <==> !Ahead(ctx, x.evidence[i])
    {
      EvidenceBefore(ctx, later, policy.rules[i], x.evidence[i], y.evidence[i]);
    }
    forall i | 0 <= i < |x.checkpoints|
      ensures CheckpointReady(ctx, policy.checkpointAge, CHECKPOINTS[i], x.checkpoints[i])
    {
      CheckpointBefore(ctx, later, policy.checkpointAge, CHECKPOINTS[i], x.checkpoints[i], y.checkpoints[i]);
    }
    CompatibilityBefore(ctx, later, policy.compatibilityAge, x.compatibility, y.compatibility);
    MutationsBefore(ctx, later, policy.mutationsAge, x.mutations, y.mutations);
    FewerEvents(ctx.(now := ctx.now + later), policy, x, y);
  }

  lemma FewerEvents(ctx: Context, policy: Policy, x: Inputs, y: Inputs)
    requires Fits(policy, x) && WorseInputs(x, y) && Ready(ctx, policy, y)
    ensures NoEvents(x)
  {
    hide Total, CheckpointReady, CompatibilityReady, MutationsReady, WorseEvidence;
    forall i | 0 <= i < |y.evidence|
      ensures y.evidence[i].Document?
    {
      assert EvidenceReady(ctx, policy.rules[i], y.evidence[i]);
    }
    forall i | 0 <= i < |EVENTS|
      ensures Total(x.evidence, EVENTS[i]) <= 0
    {
      TotalGrows(x.evidence, y.evidence, EVENTS[i]);
    }
  }

  // ----- a ready release, and how waiting can make one -----

  /** Every set of names can be listed exactly. */
  lemma {:induction false} Listing(names: set<string>) returns (values: seq<string>)
    ensures ExactSet(values, names)
    decreases |names|
  {
    if names == {} {
      values := [];
    } else {
      var x :| x in names;
      var rest := Listing(names - {x});
      values := [x] + rest;
    }
  }

  /** Evidence of any kind that is complete, bound, live and passed, with the given date. */
  lemma CompleteEvidence(ctx: Context, kind: Kind, micros: int) returns (d: Evidence)
    ensures d.Document? && d.schemaErrors == 0 && ListsExactly(kind, d) && d.gitSha == ctx.gitSha && d.releaseId == ctx.releaseId
    ensures d.environment == None && d.time == At(micros) && d.status == Passed && d.live && d.events == []
  {
    hide Required, ExactSet;
    var listed := Listing(if Required(kind).Some? then Required(kind).value else {});
    var bundle := Listing(CUTOVER_BUNDLE);
    d := Document(0, listed, bundle, ctx.releaseId, ctx.gitSha, ctx.releaseId, None, At(micros), Passed, true, []);
  }

  /** A complete set of evidence for all rules, of which one is dated ahead. */
  lemma {:induction false} CompleteSet(ctx: Context, rules: seq<Rule>, k: nat, ahead: int) returns (evidence: seq<Evidence>)
    ensures |evidence| == |rules| && Silent(evidence)
    ensures forall i | 0 <= i < |rules| ::
      && evidence[i].Document? && evidence[i].schemaErrors == 0 && ListsExactly(rules[i].kind, evidence[i])
      && evidence[i].gitSha == ctx.gitSha && evidence[i].releaseId == ctx.releaseId && evidence[i].environment == None
      && evidence[i].status == Passed && evidence[i].live
      && evidence[i].time == At(if i == k then ahead else ctx.now)
    decreases |rules|
  {
    hide ListsExactly;
    if rules == [] {
      evidence := [];
    } else {
      var n := |rules| - 1;
      var front := CompleteSet(ctx, rules[..n], k, ahead);
      var last := CompleteEvidence(ctx, rules[n].kind, if n == k then ahead else ctx.now);
      evidence := front + [last];
    }
  }

  function Otherwise(ctx: Context, evidence: seq<Evidence>): Inputs {
    Inputs(
      evidence,
      seq(|CHECKPOINTS|, i requires 0 <= i < |CHECKPOINTS| =>
        Checkpoint(0, CHECKPOINTS[i], ctx.gitSha, ctx.releaseId, At(ctx.now), Passed, [])),
      Compatibility(0, ctx.gitSha, ctx.releaseId, At(ctx.now), Passed, ALL_COMPATIBLE),
      Mutations(0, ctx.gitSha, ctx.releaseId, ctx.environment, At(ctx.now), Passed))
  }

  /** No age of the policy is shorter than two seconds. */
  ghost predicate Patient(policy: Policy) {
    && policy.checkpointAge >= 2 && policy.compatibilityAge >= 2 && policy.mutationsAge >= 2
    && forall i | 0 <= i < |policy.rules| :: policy.rules[i].maxAge >= 2
  }

  /**
   Under every such policy, and whichever kind of evidence it is: evidence dated 301 seconds ahead fails the release now,
   and the same release passes two seconds later.
   */
  lemma FutureEvidencePassesLater(ctx: Context, policy: Policy, k: nat) returns (x: Inputs)
    requires Patient(policy) && k < |policy.rules|
    ensures Fits(policy, x)
    ensures Verdict(Judgements(ctx, policy, x)) == Failed
    ensures Verdict(Judgements(ctx.(now := ctx.now + 2 * SECOND), policy, x)) == Passed
  {
    hide Verdict, Judgements, ListsExactly, Ready;
    var evidence := CompleteSet(ctx, policy.rules, k, ctx.now + 301 * SECOND);
    x := Otherwise(ctx, evidence);
    var after := ctx.(now := ctx.now + 2 * SECOND);
    PassedExactly(after, policy, x);
    ReadyLater(ctx, policy, k, evidence);
    FailedEvidenceFails(ctx, policy, x, k);
  }

  lemma ReadyLater(ctx: Context, policy: Policy, k: nat, evidence: seq<Evidence>)
    requires Patient(policy) && |evidence| == |policy.rules| && Silent(evidence)
    requires forall i | 0 <= i < |evidence| ::
      && evidence[i].Document? && evidence[i].schemaErrors == 0 && ListsExactly(policy.rules[i].kind, evidence[i])
      && evidence[i].gitSha == ctx.gitSha && evidence[i].releaseId == ctx.releaseId && evidence[i].environment == None
      && evidence[i].status == Passed && evidence[i].live
      && evidence[i].time == At(if i == k then ctx.now + 301 * SECOND else ctx.now)
    ensures Ready(ctx.(now := ctx.now + 2 * SECOND), policy, Otherwise(ctx, evidence))
  {
    hide ListsExactly, ExactSet, CheckNames, COMPATIBILITY_CHECKS, Total;
    var after := ctx.(now := ctx.now + 2 * SECOND);
    var x := Otherwise(ctx, evidence);
    AllCompatibleIsExact();
    forall i | 0 <= i < |EVENTS|
      ensures Total(x.evidence, EVENTS[i]) <= 0
    {
      SilentTotal(evidence, EVENTS[i]);
    }
    forall i | 0 <= i < |evidence|
      ensures EvidenceReady(after, policy.rules[i], evidence[i])
    {
      assert Age(after.now, evidence[i].time.micros) <= 2;
    }
  }

  /** The shipped policy is such a policy. */
  lemma ShippedIsPatient()
    ensures Patient(SHIPPED) && |SHIPPED.rules| == 9
  {
  }
}

/**
 The inputs of the final readiness verdict (operations/bin/compose_readiness_v1.py, readiness_v1_common.py): what each
 one contributes, a status and the severities of its blockers.

 Schema validation, the policy table and the parsing of timestamps are inputs of the model.
 */
module Readiness {
  import opened Basics

  // ----- the status lattice -----

  /** `Unknown` stands for any other string. */
  datatype Status = Passed | Blocked | Failed | Unknown

  function Rank(s: Status): nat {
    match s
    case Passed => 0
    case Blocked => 1
    case _ => 2
  }

  /** `combine_status`: the worst of all, where anything unknown counts as failed. */
  method CombineStatus(statuses: seq<Status>) returns (r: Status)
    ensures r == Combined(statuses)
  {
    r := Passed;
    for n := 0 to |statuses|
      invariant r == Combined(statuses[..n])
    {
      assert statuses[..n + 1][..n] == statuses[..n];
      if Rank(statuses[n]) > Rank(r) {
        r := if statuses[n] == Unknown then Failed else statuses[n];
      }
    }
    assert statuses[..|statuses|] == statuses;
  }

  function Worse(a: Status, b: Status): Status {
    if Rank(a) >= Rank(b) then (if a == Unknown then Failed else a) else (if b == Unknown then Failed else b)
  }

  function Combined(statuses: seq<Status>): Status {
    if statuses == [] then Passed else Worse(Combined(statuses[..|statuses| - 1]), statuses[|statuses| - 1])
  }

  /** The combination is the least status that no input exceeds. */
  lemma {:induction false} CombinedIsWorst(statuses: seq<Status>)
    ensures Combined(statuses) != Unknown
    ensures forall i | 0 <= i < |statuses| :: Rank(statuses[i]) <= Rank(Combined(statuses))
    ensures Combined(statuses) == Passed || exists i | 0 <= i < |statuses| :: Rank(statuses[i]) == Rank(Combined(statuses))
  {
    if statuses != [] {
      var n := |statuses| - 1;
      CombinedIsWorst(statuses[..n]);
      var front := Combined(statuses[..n]);
      if Rank(front) >= Rank(statuses[n]) && front != Passed {
        var i :| 0 <= i < n && Rank(statuses[..n][i]) == Rank(front);
        assert statuses[i] == statuses[..n][i];
      }
    }
  }

  /** Passed if all are, failed if one is or is unknown, and blocked otherwise. */
  lemma CombinedExactly(statuses: seq<Status>)
    ensures Combined(statuses) == Passed <==> forall i | 0 <= i < |statuses| :: statuses[i] == Passed
    ensures Combined(statuses) == Failed <==> exists i | 0 <= i < |statuses| :: statuses[i] == Failed || statuses[i] == Unknown
    ensures Combined(statuses) == Blocked <==>
      && (exists i | 0 <= i < |statuses| :: statuses[i] == Blocked)
      && (forall i | 0 <= i < |statuses| :: statuses[i] == Passed || statuses[i] == Blocked)
  {
    CombinedIsWorst(statuses);
    assert forall i | 0 <= i < |statuses| :: Rank(statuses[i]) == 0 <==> statuses[i] == Passed;
    assert forall i | 0 <= i < |statuses| :: Rank(statuses[i]) == 1 <==> statuses[i] == Blocked;
  }

  // ----- exact sets -----

  ghost predicate ExactSet(values: seq<string>, expected: set<string>) {
    && (forall i, j | 0 <= i < j < |values| :: values[i] != values[j])
    && (forall x :: x in values <==> x in expected)
  }

  /** `exact_set`: the number of complaints about duplicates, missing and unexpected values. */
  method CheckExactSet(values: seq<string>, expected: set<string>) returns (failures: nat)
    ensures failures == 0 <==> ExactSet(values, expected)
  {
    failures := 0;
    var duplicate := false;
    for n := 0 to |values|
      invariant duplicate <==> exists i, j | 0 <= i < j < n :: values[i] == values[j]
    {
      if values[n] in values[..n] {
        ghost var i :| 0 <= i < n && values[..n][i] == values[n];
        assert values[i] == values[n];
        duplicate := true;
      }
      assert forall i | 0 <= i < n :: values[i] == values[..n][i];
    }
    if duplicate {
      failures := failures + 1;
    }
    var actual := set x | x in values;
    if expected - actual != {} {
      failures := failures + 1;
    }
    if actual - expected != {} {
      failures := failures + 1;
    }
    assert expected - actual == {} <==> forall x | x in expected :: x in values by {
      assert forall x :: x in expected - actual <==> x in expected && x !in values;
    }
    assert actual - expected == {} <==> forall x | x in values :: x in expected by {
      assert forall x :: x in actual - expected <==> x in values && x !in expected;
    }
  }

  // ----- inputs -----

  const SECOND: int := 1_000_000

  /** A timestamp in microseconds, or why there is none. */
  datatype Time = Absent | Unparsable | At(micros: int)

  /** `age_seconds`: whole seconds, never negative. */
  function Age(now: int, micros: int): int {
    if now < micros then 0 else (now - micros) / SECOND
  }

  datatype Context = Context(gitSha: string, releaseId: string, environment: string, now: int)

  datatype Kind =
    Capacity | PlatformProbe | Load | Reconnect | Recovery | Resilience | Security | Cutover | ReleaseRecovery

  datatype Rule = Rule(kind: Kind, maxAge: int)

  /** The names that each kind of evidence must list, once each and no other. */
  function Required(kind: Kind): Option<set<string>> {
    match kind
    case Capacity => Some({"Senior 1", "Senior 2", "Senior 3", "Senior 4"})
    case PlatformProbe =>
      Some({
        "https-health", "runtime-readiness", "websocket-connect", "websocket-auth", "durable-command-commit",
        "outbox-handoff", "realtime-delivery", "resume-gap-repair", "worker-job", "native-kernel", "native-fallback"})
    case Recovery =>
      Some({
        "select-latest-valid-backup", "restore-isolated-target", "wal-pitr", "verify-migrations",
        "verify-platform-invariants", "elixir-read-only-probe", "cleanup"})
    case Resilience =>
      Some({
        "postgresql-restart", "pgbouncer-unavailable", "outbox-backlog", "oban-backlog", "realtime-slow-consumers",
        "reconnect-storm-25pct", "native-artifact-disabled", "native-kernel-panic", "telemetry-sink-unavailable",
        "disk-pressure", "beam-process-crash", "actor-supervisor-restart", "release-activation-failure",
        "first-release-deactivation-recovery", "host-reboot"})
    case Security =>
      Some({
        "public-ports", "tls", "secret-scan", "vault-references", "iam-least-privilege", "instance-principal",
        "private-database", "private-metrics", "systemd-hardening", "dependency-vulnerabilities", "license-policy",
        "sbom", "provenance", "log-redaction", "session-token-handling", "websocket-origin-auth",
        "rate-admission-limits", "native-input-bounds", "crash-dump-secret-hygiene"})
    case Cutover =>
      Some({
        "source", "integration", "artifact", "live-staging", "capacity", "load-floor", "reconnect-storm", "recovery",
        "security", "release-recovery", "approved-plan", "exact-release-binding"})
    case ReleaseRecovery =>
      Some({
        "stop-new-admission", "drain-sessions", "disable-traffic", "stop-release", "verify-no-public-traffic",
        "observe", "cleanup"})
    case _ => None
  }

  const CUTOVER_BUNDLE :=
    {"platform-probe", "load", "reconnect", "recovery", "security", "release-recovery", "capacity", "artifact", "oci-plan"}

  /**
   A primary evidence file. `listed` holds the names its checks, steps or owners carry and `bundle` the kinds of a
   cutover's evidence bundle; `events` holds the entries of its three correctness containers, `None` where a value is
   not an integer.
   */
  datatype Evidence =
    | Missing
    | Unreadable
    | Document(
        schemaErrors: nat, listed: seq<string>, bundle: seq<string>, observedReleaseId: string, gitSha: string,
        releaseId: string, environment: Option<string>, time: Time, status: Status, live: bool,
        events: seq<(string, Option<int>)>)

  datatype Checkpoint =
    | NoCheckpoint
    | UnreadableCheckpoint
    | Checkpoint(
        schemaErrors: nat, name: string, gitSha: string, releaseId: string, time: Time, status: Status,
        blockers: seq<Status>)

  datatype Compatibility =
    | NoCompatibility
    | UnreadableCompatibility
    | Compatibility(
        schemaErrors: nat, gitSha: string, releaseId: string, time: Time, status: Status, checks: seq<(string, Status)>)

  datatype Mutations =
    | NoMutations
    | UnreadableMutations
    | Mutations(
        schemaErrors: nat, gitSha: string, releaseId: string, environment: string, time: Time, status: Status)

  const CHECKPOINTS := ["source", "integration", "artifact", "live-staging", "promotion", "cutover", "post-cutover"]

  const EVENTS :=
    ["authorization_bypass", "secret_exposure", "duplicate_durable_identity", "event_before_commit", "durable_event_loss"]

  const COMPATIBILITY_CHECKS :=
    {"migrations-expand-compatible", "realtime-protocol-negotiated", "native-fallback-available", "config-versioned"}

  datatype Policy = Policy(rules: seq<Rule>, checkpointAge: int, compatibilityAge: int, mutationsAge: int)

  const HOUR: int := 3600
  const DAY: int := 86_400

  /** The policy that is shipped (operations/readiness/evidence-policy-v1.json). */
  const SHIPPED := Policy(
    [ Rule(Capacity, DAY), Rule(PlatformProbe, HOUR), Rule(Load, DAY), Rule(Reconnect, DAY), Rule(Recovery, 7 * DAY),
      Rule(Resilience, 7 * DAY), Rule(Security, DAY), Rule(Cutover, HOUR), Rule(ReleaseRecovery, 7 * DAY)],
    DAY, DAY, DAY)

  /** Everything that is composed: `evidence` follows the policy's rules, `checkpoints` the names above. */
  datatype Inputs = Inputs(
    evidence: seq<Evidence>, checkpoints: seq<Checkpoint>, compatibility: Compatibility, mutations: Mutations)

  ghost predicate Fits(policy: Policy, x: Inputs) {
    |x.evidence| == |policy.rules| && |x.checkpoints| == |CHECKPOINTS|
  }

  // ----- each input by itself -----

  /** What one input contributes: the status it reports and the severities of its blockers. */
  datatype Judgement = Judgement(status: Status, blockers: seq<Status>)

  predicate Stale(time: Time, now: int, maxAge: int) {
    time.At? && Age(now, time.micros) > maxAge
  }

  function StaleBlockers(time: Time, now: int, maxAge: int): seq<Status> {
    if Stale(time, now, maxAge) then [Blocked] else []
  }

  /** Later than the whole second of `now`, and more than 300 seconds later than `now`. */
  predicate FutureDated(time: Time, now: int) {
    time.At? && time.micros > now - now % SECOND && time.micros - now > 300 * SECOND
  }

  function Known(s: Status): Status { if s == Unknown then Failed else s }

  ghost predicate ListsExactly(kind: Kind, d: Evidence)
    requires d.Document?
  {
    && (Required(kind).Some? ==> ExactSet(d.listed, Required(kind).value))
    && (kind == Cutover ==> ExactSet(d.bundle, CUTOVER_BUNDLE))
    && (kind == PlatformProbe ==> d.observedReleaseId == d.releaseId)
  }

  /** The document is complete, dated, and bound to this exact release. */
  ghost predicate ValidEvidence(ctx: Context, rule: Rule, d: Evidence) {
    && d.Document?
    && d.schemaErrors == 0
    && ListsExactly(rule.kind, d)
    && d.gitSha == ctx.gitSha && d.releaseId == ctx.releaseId
    && (d.environment == None || d.environment == Some(ctx.environment))
    && d.time.At? && !FutureDated(d.time, ctx.now)
  }

  ghost function JudgeEvidence(ctx: Context, rule: Rule, d: Evidence): Judgement {
    match d
    case Missing => Judgement(Blocked, [Blocked])
    case Unreadable => Judgement(Failed, [Failed])
    case _ =>
      var stale := StaleBlockers(d.time, ctx.now, rule.maxAge);
      if !ValidEvidence(ctx, rule, d) || (Known(d.status) == Passed && !d.live) then Judgement(Failed, stale + [Failed])
      else if Known(d.status) != Passed then Judgement(Known(d.status), stale + [Known(d.status)])
      else Judgement(Passed, stale)
  }

  /** `semantic_evidence_errors`. */
  method SemanticErrors(kind: Kind, d: Evidence) returns (errors: nat)
    requires d.Document?
    ensures errors == 0 <==> ListsExactly(kind, d)
  {
    hide Required, ExactSet;
    errors := 0;
    if Required(kind).Some? {
      errors := CheckExactSet(d.listed, Required(kind).value);
    }
    if kind == PlatformProbe && d.observedReleaseId != d.releaseId {
      errors := errors + 1;
    }
    if kind == Cutover {
      var more := CheckExactSet(d.bundle, CUTOVER_BUNDLE);
      errors := errors + more;
    }
  }

  /** One round of the loop over the policy's evidence kinds. */
  method AssessEvidence(ctx: Context, rule: Rule, d: Evidence) returns (j: Judgement)
    ensures j == JudgeEvidence(ctx, rule, d)
  {
    hide ListsExactly;
    if d.Missing? {
      return Judgement(Blocked, [Blocked]);
    }
    if d.Unreadable? {
      return Judgement(Failed, [Failed]);
    }
    var blockers: seq<Status> := [];
    var semantic := SemanticErrors(rule.kind, d);
    var errors := d.schemaErrors + semantic;
    if d.gitSha != ctx.gitSha {
      errors := errors + 1;
    }
    if d.releaseId != ctx.releaseId {
      errors := errors + 1;
    }
    if d.environment != None && d.environment != Some(ctx.environment) {
      errors := errors + 1;
    }
    match d.time {
      case At(micros) =>
        if micros > ctx.now - ctx.now % SECOND && micros - ctx.now > 300 * SECOND {
          errors := errors + 1;
        }
        if Age(ctx.now, micros) > rule.maxAge {
          blockers := [Blocked];
        }
      case _ =>
        errors := errors + 1;
    }
    var status := d.status;
    if status == Unknown {
      status := Failed;
    }
    var entry := if errors > 0 then Failed else status;
    if errors == 0 && status == Passed && !d.live {
      errors := 1;
      entry := Failed;
    }
    if errors > 0 {
      blockers := blockers + [Failed];
    } else if status != Passed {
      blockers := blockers + [status];
    }
    j := Judgement(entry, blockers);
  }

  predicate ValidCheckpoint(ctx: Context, name: string, c: Checkpoint) {
    && c.Checkpoint? && c.schemaErrors == 0
    && c.name == name && c.gitSha == ctx.gitSha && c.releaseId == ctx.releaseId && c.time.At?
  }

  function JudgeCheckpoint(ctx: Context, maxAge: int, name: string, c: Checkpoint): Judgement {
    match c
    case NoCheckpoint => Judgement(Blocked, [Blocked])
    case UnreadableCheckpoint => Judgement(Failed, [Failed])
    case _ =>
      var stale := StaleBlockers(c.time, ctx.now, maxAge);
      if ValidCheckpoint(ctx, name, c) then Judgement(c.status, stale + c.blockers) else Judgement(Failed, stale + [Failed])
  }

  function CheckNames(checks: seq<(string, Status)>): seq<string> {
    seq(|checks|, i requires 0 <= i < |checks| => checks[i].0)
  }

  ghost predicate ValidCompatibility(ctx: Context, c: Compatibility) {
    && c.Compatibility? && c.schemaErrors == 0
    && c.gitSha == ctx.gitSha && c.releaseId == ctx.releaseId && c.time.At?
    && ExactSet(CheckNames(c.checks), COMPATIBILITY_CHECKS)
  }

  function NotPassed(checks: seq<(string, Status)>): seq<Status> {
    if checks == [] then []
    else
      var s := checks[|checks| - 1].1;
      NotPassed(checks[..|checks| - 1]) + if s == Passed then [] else [s]
  }

  ghost function JudgeCompatibility(ctx: Context, maxAge: int, c: Compatibility): Judgement {
    match c
    case NoCompatibility => Judgement(Blocked, [Blocked])
    case UnreadableCompatibility => Judgement(Failed, [Failed])
    case _ =>
      var stale := StaleBlockers(c.time, ctx.now, maxAge);
      if ValidCompatibility(ctx, c) then Judgement(c.status, stale + NotPassed(c.checks))
      else Judgement(Failed, stale + [Failed])
  }

  method AssessCompatibility(ctx: Context, maxAge: int, c: Compatibility) returns (j: Judgement)
    ensures j == JudgeCompatibility(ctx, maxAge, c)
  {
    hide ExactSet;
    if c.NoCompatibility? {
      return Judgement(Blocked, [Blocked]);
    }
    if c.UnreadableCompatibility? {
      return Judgement(Failed, [Failed]);
    }
    var blockers := StaleBlockers(c.time, ctx.now, maxAge);
    var errors := CheckExactSet(CheckNames(c.checks), COMPATIBILITY_CHECKS);
    if errors > 0 || c.schemaErrors > 0 || c.gitSha != ctx.gitSha || c.releaseId != ctx.releaseId || !c.time.At? {
      return Judgement(Failed, blockers + [Failed]);
    }
    ghost var stale := blockers;
    for n := 0 to |c.checks|
      invariant blockers == stale + NotPassed(c.checks[..n])
    {
      assert c.checks[..n + 1][..n] == c.checks[..n];
      if c.checks[n].1 != Passed {
        blockers := blockers + [c.checks[n].1];
      }
    }
    assert c.checks[..|c.checks|] == c.checks;
    j := Judgement(c.status, blockers);
  }

  predicate ValidMutations(ctx: Context, m: Mutations) {
    && m.Mutations? && m.schemaErrors == 0
    && m.gitSha == ctx.gitSha && m.releaseId == ctx.releaseId && m.environment == ctx.environment && m.time.At?
  }

  function JudgeMutations(ctx: Context, maxAge: int, m: Mutations): Judgement {
    match m
    case NoMutations => Judgement(Blocked, [Blocked])
    case UnreadableMutations => Judgement(Failed, [Failed])
    case _ =>
      var stale := StaleBlockers(m.time, ctx.now, maxAge);
      if !ValidMutations(ctx, m) then Judgement(Failed, stale + [Failed])
      else if m.status != Passed then Judgement(m.status, stale + [m.status])
      else Judgement(Passed, stale)
  }

  // ----- correctness events -----

  function Sum(events: seq<(string, Option<int>)>, name: string): int {
    if events == [] then 0
    else
      var e := events[|events| - 1];
      Sum(events[..|events| - 1], name) + if e.0 == name && e.1.Some? then e.1.value else 0
  }

  function EventsOf(d: Evidence, name: string): int {
    if d.Document? then Sum(d.events, name) else 0
  }

  function Total(evidence: seq<Evidence>, name: string): int {
    if evidence == [] then 0
    else Total(evidence[..|evidence| - 1], name) + EventsOf(evidence[|evidence| - 1], name)
  }

  /** Sums run over every entry of every readable document, and skip what is not an integer. */
  lemma {:induction false} SumLaws(a: seq<(string, Option<int>)>, b: seq<(string, Option<int>)>, e: (string, Option<int>), name: string)
    ensures Sum(a + b, name) == Sum(a, name) + Sum(b, name)
    ensures Sum([e], name) == match e.1 case Some(n) => if e.0 == name then n else 0 case None => 0
    decreases |b|
  {
    assert [e][..0] == [] && Sum([], name) == 0;
    if b == [] {
      assert a + b == a;
    } else {
      var n := |b| - 1;
      SumLaws(a, b[..n], e, name);
      assert (a + b)[..|a| + n] == a + b[..n];
    }
  }

  lemma {:induction false} TotalLaws(a: seq<Evidence>, b: seq<Evidence>, d: Evidence, name: string)
    ensures Total(a + b, name) == Total(a, name) + Total(b, name)
    ensures Total([d], name) == if d.Document? then Sum(d.events, name) else 0
    decreases |b|
  {
    hide Sum;
    assert [d][..0] == [] && Total([], name) == 0;
    if b == [] {
      assert a + b == a;
    } else {
      var n := |b| - 1;
      TotalLaws(a, b[..n], d, name);
      assert (a + b)[..|a| + n] == a + b[..n];
    }
  }

  method AddEvents(counts: map<string, int>, d: Evidence) returns (r: map<string, int>)
    requires d.Document?
    ensures r.Keys == counts.Keys
    ensures forall name | name in counts :: r[name] == counts[name] + Sum(d.events, name)
  {
    r := counts;
    for n := 0 to |d.events|
      invariant r.Keys == counts.Keys
      invariant forall name | name in counts :: r[name] == counts[name] + Sum(d.events[..n], name)
    {
      var e := d.events[n];
      assert d.events[..n + 1][..n] == d.events[..n];
      if e.0 in r && e.1.Some? {
        r := r[e.0 := r[e.0] + e.1.value];
      }
    }
    assert d.events[..|d.events|] == d.events;
  }

  /** `correctness_counts`: summed over every readable document, valid or not. */
  method CorrectnessCounts(evidence: seq<Evidence>) returns (counts: map<string, int>)
    ensures forall name :: name in counts <==> name in EVENTS
    ensures forall name | name in EVENTS :: counts[name] == Total(evidence, name)
  {
    counts := map name: string | name in EVENTS :: 0;
    for n := 0 to |evidence|
      invariant forall name :: name in counts <==> name in EVENTS
      invariant forall name | name in EVENTS :: counts[name] == Total(evidence[..n], name)
    {
      assert evidence[..n + 1][..n] == evidence[..n];
      if evidence[n].Document? {
        counts := AddEvents(counts, evidence[n]);
      }
    }
    assert evidence[..|evidence|] == evidence;
  }
}

/**
 The evidence documents of release control (infrastructure/deployment/release_control.py) and their schemas
 (contracts/deployment/rollback-v1.schema.json, activation-v1.schema.json): which ones an executed run manages to
 publish.  They are validated only after the host has been changed, and a refused one ends the program with exit 1.

 Everything in them but the deployment id and the approval comes from validated descriptors or is bounded by the program.
 */
module ReleaseEvidence {
  import opened Basics
  import opened ReleaseControl

  /** What a caller writes on the documents. */
  datatype Labels = Labels(deploymentId: string, approval: string)

  datatype Document = RollbackEvidence | ActivationEvidence

  const MAX_APPROVAL: nat := 256

  const SUFFIX := "-rollback"

  predicate IsAlphanumeric(c: char) {
    'a' <= c <= 'z' || '0' <= c <= '9'
  }

  predicate IsIdentifierChar(c: char) {
    IsAlphanumeric(c) || c in "._-"
  }

  /** The characters that identifiers are made of. */
  predicate IsPlain(s: string) {
    s != "" && IsAlphanumeric(s[0]) && forall i | 0 <= i < |s| :: IsIdentifierChar(s[i])
  }

  /** The schemas' pattern, as the validator searches for it: its end also matches before a final line feed. */
  predicate MatchesPattern(s: string) {
    || (IsPlain(s) && 3 <= |s| <= 96)
    || (s != "" && s[|s| - 1] == '\n' && IsPlain(s[..|s| - 1]) && 3 <= |s| - 1 <= 96)
  }

  predicate RollbackFits(labels: Labels) {
    MatchesPattern(labels.deploymentId + SUFFIX) && |labels.approval| <= MAX_APPROVAL
  }

  predicate ActivationFits(labels: Labels) {
    MatchesPattern(labels.deploymentId) && |labels.approval| <= MAX_APPROVAL
  }

  /** No document of such a run is refused because of its labels. */
  predicate Fits(labels: Labels, activate: bool) {
    RollbackFits(labels) && (activate ==> ActivationFits(labels))
  }

  lemma SuffixIsPlain(id: string)
    ensures IsPlain(id + SUFFIX) <==> IsPlain(id)
    ensures (id + SUFFIX)[|id + SUFFIX| - 1] == 'k'
  {
    var s := id + SUFFIX;
    assert forall i | 0 <= i < |SUFFIX| :: IsIdentifierChar(SUFFIX[i]);
    assert forall i | 0 <= i < |id| :: s[i] == id[i];
    assert forall i | |id| <= i < |s| :: s[i] == SUFFIX[i - |id|];
    if id == "" {
      assert s[0] == '-';
    }
  }

  lemma PlainExactly(id: string)
    ensures IsPlain(id) <==>
      && id != "" && ('a' <= id[0] <= 'z' || '0' <= id[0] <= '9')
      && forall c | c in id :: 'a' <= c <= 'z' || '0' <= c <= '9' || c == '.' || c == '_' || c == '-'
  {
    assert forall c :: IsIdentifierChar(c) <==> 'a' <= c <= 'z' || '0' <= c <= '9' || c == '.' || c == '_' || c == '-';
    assert forall i | 0 <= i < |id| :: id[i] in id;
  }

  /** What a caller can check before the run: the characters, the length and the approval. */
  lemma FitsExactly(labels: Labels, activate: bool)
    ensures Fits(labels, activate) <==>
      && (if activate then 3 else 1) <= |labels.deploymentId| <= 87
      && ('a' <= labels.deploymentId[0] <= 'z' || '0' <= labels.deploymentId[0] <= '9')
      && (forall c | c in labels.deploymentId :: 'a' <= c <= 'z' || '0' <= c <= '9' || c == '.' || c == '_' || c == '-')
      && |labels.approval| <= 256
  {
    SuffixIsPlain(labels.deploymentId);
    PlainExactly(labels.deploymentId);
    if IsPlain(labels.deploymentId) {
      assert labels.deploymentId[|labels.deploymentId| - 1] != '\n';
    }
  }

  /** The documents of a run that reached its end: the rollback's first, and none after one that was refused. */
  function Written(labels: Labels, outcome: Outcome, activate: bool): set<Document> {
    if !RollbackFits(labels) || outcome == EvidenceRejected then {}
    else if activate && ActivationFits(labels) then {RollbackEvidence, ActivationEvidence}
    else {RollbackEvidence}
  }

  /** The end of `main`: validate and write one document after the other, then decide on the exit code. */
  method Publish(labels: Labels, outcome: Outcome, activate: bool) returns (exit: int, written: set<Document>)
    requires outcome == EvidenceRejected ==> !activate
    ensures exit == ExitCode(outcome, Fits(labels, activate))
    ensures written == Written(labels, outcome, activate)
  {
    written := {};
    // Records with durations are not admitted either.
    if !RollbackFits(labels) || outcome == EvidenceRejected {
      return 1, written;
    }
    written := written + {RollbackEvidence};
    if activate {
      if !ActivationFits(labels) {
        return 1, written;
      }
      written := written + {ActivationEvidence};
    }
    exit := ExitCode(outcome, true);
  }

  /** All documents are written exactly when the labels fit and no record is timed; otherwise the exit code is 1. */
  lemma CompleteEvidence(labels: Labels, outcome: Outcome, activate: bool)
    ensures (RollbackEvidence in Written(labels, outcome, activate) && (activate ==> ActivationEvidence in Written(labels, outcome, activate)))
       <==> Fits(labels, activate) && outcome != EvidenceRejected
    ensures !Fits(labels, activate) ==> ExitCode(outcome, Fits(labels, activate)) == 1
  {
    hide MatchesPattern;
  }

  /** Which documents are written, on the labels alone. */
  lemma WrittenExactly(labels: Labels, outcome: Outcome, activate: bool)
    ensures RollbackEvidence in Written(labels, outcome, activate) <==>
      outcome != EvidenceRejected && Fits(labels, false)
    ensures ActivationEvidence in Written(labels, outcome, activate) <==>
      outcome != EvidenceRejected && activate && Fits(labels, true)
  {
    hide MatchesPattern;
  }

  /** Three ways in which the documents of an activation do not fit; in the last, one of the two is still written. */
  lemma UnfitLabels(approval: string, long: string, outcome: Outcome)
    requires |approval| <= MAX_APPROVAL && |long| == 88 && outcome != EvidenceRejected
    ensures Written(Labels("PROD-1", approval), outcome, true) == {}
    ensures Written(Labels(long, approval), outcome, true) == {}
    ensures Written(Labels("ab", approval), outcome, true) == {RollbackEvidence}
  {
    FitsExactly(Labels("PROD-1", approval), false);
    FitsExactly(Labels(long, approval), false);
    FitsExactly(Labels("ab", approval), false);
    FitsExactly(Labels("ab", approval), true);
    assert "PROD-1"[0] == 'P' && "ab"[0] == 'a';
  }
}

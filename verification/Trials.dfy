/**
 Trial records and the loader's identity check
 (evals/benchmarks/statistical_eval.py).
 */
module Trials {
  import opened Results

  datatype Trial = Trial(
    experimentId: string,
    pairId: string,
    candidateId: string,
    configFingerprint: string,
    scenario: string,
    scenarioVersion: string,
    datasetSha256: string,
    riskClass: string,
    resolved: bool,
    falseResolved: bool,
    graderStatus: string,
    safetyOk: bool,
    costUsd: Option<real>,
    traceComplete: bool,
    traceSpanCount: int,
    traceEvidenceSha256: Option<string>,
    traceEvidenceArtifact: Option<string>)
  {
    predicate RecoverySuccess() { resolved && !falseResolved }

    predicate QualitySuccess() { RecoverySuccess() && graderStatus == "PASS" && safetyOk }

    predicate HighRisk() { riskClass == "high" || riskClass == "critical" }

    function Identity(): (string, string, string) { (experimentId, pairId, candidateId) }

    // Resolved, graded, safe, fully traced and costed.
    predicate Flawless() { QualitySuccess() && traceComplete && costUsd.Some? }

    predicate SameProvenance(other: Trial) {
      scenario == other.scenario && scenarioVersion == other.scenarioVersion
      && datasetSha256 == other.datasetSha256 && riskClass == other.riskClass
    }
  }

  ghost predicate DistinctIdentities(trials: seq<Trial>) {
    forall i, j :: 0 <= i < j < |trials| ==>
      || trials[i].experimentId != trials[j].experimentId
      || trials[i].pairId != trials[j].pairId
      || trials[i].candidateId != trials[j].candidateId
  }

  // The loader accepts a non-empty artifact exactly when no two rows share an identity.
  method LoadTrials(rows: seq<Trial>) returns (r: Result<seq<Trial>, string>)
    ensures r.Ok? <==> rows != [] && DistinctIdentities(rows)
    ensures r.Ok? ==> r.value == rows
  {
    if rows == [] {
      return Err("trial artifact is empty");
    }
    var trials: seq<Trial> := [];
    var identities: set<(string, string, string)> := {};
    for i := 0 to |rows|
      invariant trials == rows[..i]
      invariant forall x :: x in identities <==> exists j :: 0 <= j < i && rows[j].Identity() == x
      invariant DistinctIdentities(rows[..i])
    {
      var identity := rows[i].Identity();
      if identity in identities {
        return Err("duplicate trial identity");
      }
      identities := identities + {identity};
      trials := trials + [rows[i]];
    }
    r := Ok(trials);
  }
}

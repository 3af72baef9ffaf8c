/**
 When two candidates' trials are comparable, said of the trials themselves rather than of the sets
 and dictionaries the comparison builds from them (evals/benchmarks/statistical_eval.py).
 */
module Comparability {
  import opened Results
  import opened Trials
  import opened ReleaseGate

  ghost predicate Of(trials: seq<Trial>, i: int, id: string) { 0 <= i < |trials| && trials[i].candidateId == id }

  ghost predicate OfEither(trials: seq<Trial>, i: int, b: string, c: string) { Of(trials, i, b) || Of(trials, i, c) }

  // The two trials pair up: one pair, and one scenario, version, dataset and risk class.
  ghost predicate Mates(a: Trial, b: Trial) {
    && a.pairId == b.pairId && a.scenario == b.scenario && a.scenarioVersion == b.scenarioVersion
    && a.datasetSha256 == b.datasetSha256 && a.riskClass == b.riskClass
  }

  ghost predicate OneExperiment(trials: seq<Trial>, b: string, c: string) {
    forall i, j :: OfEither(trials, i, b, c) && OfEither(trials, j, b, c) ==>
      trials[i].experimentId == trials[j].experimentId
  }

  ghost predicate OneConfig(trials: seq<Trial>, id: string) {
    forall i, j :: Of(trials, i, id) && Of(trials, j, id) ==> trials[i].configFingerprint == trials[j].configFingerprint
  }

  // Every trial of one candidate has a mate among the other's.
  ghost predicate Mated(trials: seq<Trial>, id: string, other: string) {
    forall i :: Of(trials, i, id) ==> exists j :: Of(trials, j, other) && Mates(trials[i], trials[j])
  }

  ghost predicate ConfigsDiffer(trials: seq<Trial>, b: string, c: string) {
    exists i, j ::
      Of(trials, i, b) && Of(trials, j, c) && trials[i].configFingerprint != trials[j].configFingerprint
  }

  // What it takes for two candidates to be comparable, trial by trial.
  ghost predicate WellPaired(trials: seq<Trial>, b: string, c: string) {
    && b != c && ConfigsDiffer(trials, b, c) && OneExperiment(trials, b, c)
    && OneConfig(trials, b) && OneConfig(trials, c)
    && Mated(trials, b, c) && Mated(trials, c, b)
  }

  // ----- Sets with one element

  lemma OneElement(s: set<string>, x: string)
    requires x in s
    ensures |s| == 1 <==> s == {x}
  {
    if |s| == 1 {
      forall y | y in s ensures y == x {
        if y != x { SubsetSize({x, y}, s); }
      }
    }
  }

  lemma ExperimentsMean(trials: seq<Trial>, b: string, c: string, i: int)
    requires Of(trials, i, b)
    ensures |Experiments(trials, b, c)| == 1 <==> OneExperiment(trials, b, c)
  {
    var e := Experiments(trials, b, c);
    assert forall k :: OfEither(trials, k, b, c) ==> trials[k].experimentId in e;
    OneElement(e, trials[i].experimentId);
    if OneExperiment(trials, b, c) {
      assert OfEither(trials, i, b, c);
      forall x | x in e ensures x == trials[i].experimentId {
        var k :| 0 <= k < |trials| && trials[k].candidateId in {b, c} && trials[k].experimentId == x;
        assert OfEither(trials, k, b, c);
      }
      assert e == {trials[i].experimentId};
    }
  }

  lemma FingerprintsMean(trials: seq<Trial>, id: string, i: int)
    requires Of(trials, i, id)
    ensures |Fingerprints(trials, id)| == 1 <==> OneConfig(trials, id)
    ensures |Fingerprints(trials, id)| == 1 ==> Fingerprints(trials, id) == {trials[i].configFingerprint}
  {
    var f := Fingerprints(trials, id);
    assert forall k :: Of(trials, k, id) ==> trials[k].configFingerprint in f;
    OneElement(f, trials[i].configFingerprint);
    if OneConfig(trials, id) {
      forall x | x in f ensures x == trials[i].configFingerprint {
        var k :| 0 <= k < |trials| && trials[k].candidateId == id && trials[k].configFingerprint == x;
        assert Of(trials, k, id);
      }
      assert f == {trials[i].configFingerprint};
    }
  }

  // ----- Arms and their trials

  lemma {:induction false} ArmFrom(trials: seq<Trial>, id: string, k: string) returns (i: nat)
    requires k in ArmOf(trials, id)
    ensures Of(trials, i, id) && trials[i].pairId == k && ArmOf(trials, id)[k] == trials[i]
  {
    var n := |trials| - 1;
    if trials[n].candidateId == id && trials[n].pairId == k {
      i := n;
    } else {
      i := ArmFrom(trials[..n], id, k);
    }
  }

  lemma OwnEntry(trials: seq<Trial>, b: string, c: string, id: string, i: int)
    requires DistinctIdentities(trials) && OneExperiment(trials, b, c) && (id == b || id == c) && Of(trials, i, id)
    ensures trials[i].pairId in ArmOf(trials, id) && ArmOf(trials, id)[trials[i].pairId] == trials[i]
  {
    assert forall j :: Of(trials, j, id) ==> OfEither(trials, j, b, c);
    PairingLossless(trials, id, i);
  }

  lemma PairedMates(trials: seq<Trial>, b: string, c: string, id: string, other: string)
    requires DistinctIdentities(trials) && OneExperiment(trials, b, c)
    requires (id == b && other == c) || (id == c && other == b)
    requires Paired(ArmOf(trials, b), ArmOf(trials, c))
    ensures Mated(trials, id, other)
  {
    forall i | Of(trials, i, id) ensures exists j :: Of(trials, j, other) && Mates(trials[i], trials[j]) {
      OwnEntry(trials, b, c, id, i);
      var k := trials[i].pairId;
      var j := ArmFrom(trials, other, k);
      assert ArmOf(trials, b)[k].SameProvenance(ArmOf(trials, c)[k]);
      assert Mates(trials[i], trials[j]);
    }
  }

  // The other arm has a mate's entry for each entry of a mated arm.
  lemma MateEntry(trials: seq<Trial>, b: string, c: string, id: string, other: string, k: string)
    requires DistinctIdentities(trials) && OneExperiment(trials, b, c)
    requires (id == b && other == c) || (id == c && other == b)
    requires Mated(trials, id, other) && k in ArmOf(trials, id)
    ensures k in ArmOf(trials, other) && Mates(ArmOf(trials, id)[k], ArmOf(trials, other)[k])
  {
    var i := ArmFrom(trials, id, k);
    var j :| Of(trials, j, other) && Mates(trials[i], trials[j]);
    OwnEntry(trials, b, c, other, j);
  }

  lemma MatesPaired(trials: seq<Trial>, b: string, c: string)
    requires DistinctIdentities(trials) && OneExperiment(trials, b, c)
    requires Mated(trials, b, c) && Mated(trials, c, b)
    ensures Paired(ArmOf(trials, b), ArmOf(trials, c))
  {
    var before, after := ArmOf(trials, b), ArmOf(trials, c);
    forall k | k in before ensures k in after && before[k].SameProvenance(after[k]) {
      MateEntry(trials, b, c, b, c, k);
    }
    forall k | k in after ensures k in before {
      MateEntry(trials, b, c, c, b, k);
    }
  }

  // Loaded trials are comparable exactly when they are well paired.
  lemma ComparableMeans(trials: seq<Trial>, b: string, c: string)
    requires DistinctIdentities(trials)
    ensures Comparable(trials, b, c) <==> WellPaired(trials, b, c)
  {
    if Comparable(trials, b, c) {
      ComparablePairs(trials, b, c);
    }
    PairsComparable(trials, b, c);
  }

  lemma ComparablePairs(trials: seq<Trial>, b: string, c: string)
    requires DistinctIdentities(trials) && Comparable(trials, b, c)
    ensures WellPaired(trials, b, c)
  {
    assert Fingerprints(trials, b) != {} && Fingerprints(trials, c) != {};
    var i :| 0 <= i < |trials| && trials[i].candidateId == b;
    var j :| 0 <= j < |trials| && trials[j].candidateId == c;
    assert Of(trials, i, b) && Of(trials, j, c);
    ExperimentsMean(trials, b, c, i);
    FingerprintsMean(trials, b, i);
    FingerprintsMean(trials, c, j);
    PairedMates(trials, b, c, b, c);
    PairedMates(trials, b, c, c, b);
  }

  lemma ConfigsApart(trials: seq<Trial>, b: string, c: string)
    requires ConfigsDiffer(trials, b, c) && OneExperiment(trials, b, c) && OneConfig(trials, b) && OneConfig(trials, c)
    ensures |Experiments(trials, b, c)| == 1 && |Fingerprints(trials, b)| == 1 && |Fingerprints(trials, c)| == 1
    ensures Fingerprints(trials, b) != Fingerprints(trials, c)
  {
    var i, j :| Of(trials, i, b) && Of(trials, j, c) && trials[i].configFingerprint != trials[j].configFingerprint;
    ExperimentsMean(trials, b, c, i);
    FingerprintsMean(trials, b, i);
    FingerprintsMean(trials, c, j);
    assert trials[i].configFingerprint !in {trials[j].configFingerprint};
  }

  lemma PairsComparable(trials: seq<Trial>, b: string, c: string)
    requires DistinctIdentities(trials)
    ensures WellPaired(trials, b, c) ==> Comparable(trials, b, c)
  {
    if WellPaired(trials, b, c) {
      ConfigsApart(trials, b, c);
      MatesPaired(trials, b, c);
    }
  }
}

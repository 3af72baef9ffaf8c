/**
 The statistical half of the release gate: the paired comparison of two arms, the
 per-metric margins the gate applies to it, and the check that a policy is reachable
 (evals/benchmarks/statistical_eval.py, evals/benchmarks/release_gate.py,
 evals/benchmarks/release_evidence.py).

 The evaluator's interval function is a parameter; `Wilson.WilsonScores` shows that the code's has
 the properties the theorems ask of it.
 */
module ReleaseGate {
  import opened RealArith
  import opened Results
  import opened Trials
  import opened Wilson

  // The 95% normal quantile both evaluator and gate use.
  const Z: real := 1.959963984540054

  datatype Policy = Policy(
    minimumPairs: int,
    maximumCiWidth: real,
    recoveryMargin: real,
    qualityMargin: real)

  // The bounds `load_policy` enforces before it asks whether the policy is reachable.
  ghost predicate WellFormed(policy: Policy) {
    && policy.minimumPairs >= 1
    && 0.01 <= policy.maximumCiWidth <= 2.0
    && 0.0 <= policy.recoveryMargin <= 1.0
    && 0.0 <= policy.qualityMargin <= 1.0
  }

  // One arm of a comparison: its trials by pair identifier.
  type Arm = map<string, Trial>

  datatype Reason =
    | TooFewPairs | RecoveryTooWide | RecoveryInferior | QualityTooWide | QualityInferior
    | SafetyFailure | IncompleteGrades | MissingTraceCost | CriticalRecoveryRegression | CriticalQualityRegression
    | RecoveryMarginExceeded | QualityMarginExceeded

  // ----- The paired comparison

  function Successes(arm: Arm, metric: Trial -> bool): (n: int)
    ensures 0 <= n <= |arm|
  {
    var hits := set k | k in arm && metric(arm[k]);
    SubsetSize(hits, arm.Keys);
    |hits|
  }

  lemma SubsetSize(a: set<string>, b: set<string>)
    requires a <= b
    ensures |a| <= |b|
  {
    if a != {} {
      var x :| x in a;
      SubsetSize(a - {x}, b - {x});
    }
  }

  const Recovery: Trial -> bool := (t: Trial) => t.RecoverySuccess()

  const Quality: Trial -> bool := (t: Trial) => t.QualitySuccess()

  // The conservative interval of candidate minus baseline for one yes/no metric.
  function PairedBinary(wilson: Scoring, baseline: Arm, candidate: Arm, metric: Trial -> bool): Interval
    requires baseline.Keys == candidate.Keys
  {
    Conservative(wilson(Successes(baseline, metric), |baseline|), wilson(Successes(candidate, metric), |candidate|))
  }

  // The trials of an arm in the slice that the baseline marks high or critical risk.
  function Critical(baseline: Arm, arm: Arm): Arm {
    map k | k in arm && k in baseline && baseline[k].HighRisk() :: arm[k]
  }

  function When(condition: bool, reason: Reason): seq<Reason> { if condition then [reason] else [] }

  // The reasons that come from the two intervals, in the evaluator's order.
  function IntervalReasons(pairs: int, recovery: Interval, quality: Interval,
                           minimumPairs: int, maximumCiWidth: real, margin: real): seq<Reason>
  {
    When(pairs < minimumPairs, TooFewPairs)
    + When(recovery.high - recovery.low > maximumCiWidth, RecoveryTooWide)
    + When(recovery.low < -margin, RecoveryInferior)
    + When(quality.high - quality.low > maximumCiWidth, QualityTooWide)
    + When(quality.low < -margin, QualityInferior)
  }

  // The reasons that come from single trials and from the high-risk slice.
  function TrialReasons(baseline: Arm, candidate: Arm): seq<Reason>
    requires baseline.Keys == candidate.Keys
  {
    TrialList(AnyUnsafe(candidate), AnyUngraded(candidate), AnyUncosted(baseline) || AnyUncosted(candidate),
              SliceRegresses(baseline, candidate, Recovery), SliceRegresses(baseline, candidate, Quality))
  }

  predicate AnyUnsafe(arm: Arm) { exists k :: k in arm && !arm[k].safetyOk }

  predicate AnyUngraded(arm: Arm) { exists k :: k in arm && arm[k].graderStatus != "PASS" }

  predicate AnyUncosted(arm: Arm) { exists k :: k in arm && Uncosted(arm[k]) }

  function TrialList(unsafe: bool, ungraded: bool, uncosted: bool, recovery: bool, quality: bool): seq<Reason> {
    When(unsafe, SafetyFailure) + When(ungraded, IncompleteGrades) + When(uncosted, MissingTraceCost)
    + When(recovery, CriticalRecoveryRegression) + When(quality, CriticalQualityRegression)
  }

  // The candidate succeeds less often on the slice that the baseline marks as risky.
  predicate SliceRegresses(baseline: Arm, candidate: Arm, metric: Trial -> bool) {
    var before, after := Critical(baseline, baseline), Critical(baseline, candidate);
    before != map[] && Successes(after, metric) < Successes(before, metric)
  }

  // The reasons `compare_candidates` lists; an empty list is a PROMOTE.
  function CompareReasons(wilson: Scoring, baseline: Arm, candidate: Arm,
                          minimumPairs: int, maximumCiWidth: real, margin: real): seq<Reason>
    requires baseline.Keys == candidate.Keys
  {
    IntervalReasons(|baseline|, PairedBinary(wilson, baseline, candidate, Recovery),
                    PairedBinary(wilson, baseline, candidate, Quality), minimumPairs, maximumCiWidth, margin)
    + TrialReasons(baseline, candidate)
  }

  predicate Uncosted(t: Trial) { !t.traceComplete || t.costUsd.None? }

  // What the gate adds on top: each metric's own margin, on the recomputed interval.
  function MarginReasons(wilson: Scoring, baseline: Arm, candidate: Arm, policy: Policy): Result<seq<Reason>, string>
    requires baseline.Keys == candidate.Keys
  {
    var recovery := PairedBinary(wilson, baseline, candidate, Recovery);
    var quality := PairedBinary(wilson, baseline, candidate, Quality);
    if !Usable(recovery) || !Usable(quality) then Err("interval out of bounds or inverted")
    else Ok(When(recovery.low < -policy.recoveryMargin, RecoveryMarginExceeded)
            + When(quality.low < -policy.qualityMargin, QualityMarginExceeded))
  }

  predicate Usable(i: Interval) { -1.0 <= i.low <= i.high <= 1.0 }

  // The stricter margin is the one handed to the evaluator.
  function StricterMargin(policy: Policy): real { Min(policy.recoveryMargin, policy.qualityMargin) }

  // Both the evaluator's verdict and the gate's margins hold.
  ghost predicate Passes(wilson: Scoring, baseline: Arm, candidate: Arm, policy: Policy)
    requires baseline.Keys == candidate.Keys
  {
    && CompareReasons(wilson, baseline, candidate, policy.minimumPairs, policy.maximumCiWidth,
                      StricterMargin(policy)) == []
    && MarginReasons(wilson, baseline, candidate, policy) == Ok([])
  }

  // ----- The reachability check

  function Ceil(x: real): int { if x == x.Floor as real then x.Floor else x.Floor + 1 }

  lemma CeilIsLeast(x: real, n: int)
    ensures Ceil(x) <= n <==> x <= n as real
  {}

  // Fewest pairs at which two flawless arms clear `margin`.
  function ReachablePairs(margin: real): Result<int, string> {
    if margin <= 0.0 then Err("policy non-inferiority margin must be positive to be reachable")
    else Ok(Ceil(Z * Z * (1.0 - margin) / margin))
  }

  // 2 z*z/(n + z*z): the narrowest interval the check believes n pairs can give.
  function Widest(pairs: int): real
    requires pairs >= 1
  {
    2.0 * Z * Z / (pairs as real + Z * Z)
  }

  // The policy check: a loop over the two margins, then the width.
  method RequireReachablePolicy(policy: Policy) returns (r: Result<(), string>)
    requires policy.minimumPairs >= 1
    ensures r.Ok? <==> Accepted(policy)
  {
    var margins := [policy.recoveryMargin, policy.qualityMargin];
    for i := 0 to |margins|
      invariant forall j :: 0 <= j < i ==> MarginReachable(margins[j], policy.minimumPairs)
    {
      var needed := ReachablePairs(margins[i]);
      if needed.Err? {
        assert !MarginReachable(margins[i], policy.minimumPairs);
        return Err(needed.error);
      }
      if policy.minimumPairs < needed.value {
        assert !MarginReachable(margins[i], policy.minimumPairs);
        return Err("margin is unreachable at minimum_pairs");
      }
    }
    assert MarginReachable(margins[0], policy.minimumPairs) && MarginReachable(margins[1], policy.minimumPairs);
    if Widest(policy.minimumPairs) > policy.maximumCiWidth {
      return Err("maximum_ci_width is unreachable at minimum_pairs");
    }
    return Ok(());
  }

  predicate MarginReachable(margin: real, pairs: int) {
    var needed := ReachablePairs(margin);
    needed.Ok? && pairs >= needed.value
  }

  predicate Accepted(policy: Policy)
    requires policy.minimumPairs >= 1
  {
    && MarginReachable(policy.recoveryMargin, policy.minimumPairs)
    && MarginReachable(policy.qualityMargin, policy.minimumPairs)
    && Widest(policy.minimumPairs) <= policy.maximumCiWidth
  }

  // ----- Selecting and pairing the trials

  // The dictionary the pairing loop fills for one candidate; a repeated pair keeps the last row.
  function ArmOf(trials: seq<Trial>, id: string): Arm {
    if trials == [] then map[]
    else
      var last, earlier := trials[|trials| - 1], ArmOf(trials[..|trials| - 1], id);
      if last.candidateId == id then earlier[last.pairId := last] else earlier
  }

  function Experiments(trials: seq<Trial>, baselineId: string, candidateId: string): set<string> {
    set i | 0 <= i < |trials| && trials[i].candidateId in {baselineId, candidateId} :: trials[i].experimentId
  }

  function Fingerprints(trials: seq<Trial>, id: string): set<string> {
    set i | 0 <= i < |trials| && trials[i].candidateId == id :: trials[i].configFingerprint
  }

  // What `compare_candidates` demands of its input before it compares anything.
  predicate Comparable(trials: seq<Trial>, baselineId: string, candidateId: string) {
    && baselineId != candidateId
    && |Experiments(trials, baselineId, candidateId)| == 1
    && |Fingerprints(trials, baselineId)| == 1
    && |Fingerprints(trials, candidateId)| == 1
    && Fingerprints(trials, baselineId) != Fingerprints(trials, candidateId)
    && Paired(ArmOf(trials, baselineId), ArmOf(trials, candidateId))
  }

  predicate Paired(baseline: Arm, candidate: Arm) {
    && baseline.Keys == candidate.Keys
    && forall k :: k in baseline ==> baseline[k].SameProvenance(candidate[k])
  }

  datatype Report = Report(pairCount: int, reasons: seq<Reason>)

  // The pairing loop.
  method PairUp(trials: seq<Trial>, baselineId: string, candidateId: string) returns (baseline: Arm, candidate: Arm)
    ensures baseline == ArmOf(trials, baselineId) && candidate == ArmOf(trials, candidateId)
  {
    baseline, candidate := map[], map[];
    for i := 0 to |trials|
      invariant baseline == ArmOf(trials[..i], baselineId)
      invariant candidate == ArmOf(trials[..i], candidateId)
    {
      assert trials[..i + 1][..i] == trials[..i];
      var trial := trials[i];
      if trial.candidateId == baselineId {
        baseline := baseline[trial.pairId := trial];
      }
      if trial.candidateId == candidateId {
        candidate := candidate[trial.pairId := trial];
      }
    }
    assert trials[..|trials|] == trials;
  }

  method CompareCandidates(wilson: Scoring, trials: seq<Trial>, baselineId: string, candidateId: string,
                           minimumPairs: int, maximumCiWidth: real, margin: real)
    returns (r: Result<Report, string>)
    ensures r.Ok? <==> && minimumPairs >= 1 && 0.0 < maximumCiWidth <= 2.0 && 0.0 <= margin <= 1.0
                       && Comparable(trials, baselineId, candidateId)
    ensures r.Ok? ==>
              var baseline, candidate := ArmOf(trials, baselineId), ArmOf(trials, candidateId);
              && baseline.Keys == candidate.Keys && |baseline| >= 1
              && r.value ==
                Report(|baseline|, CompareReasons(wilson, baseline, candidate, minimumPairs, maximumCiWidth, margin))
  {
    if minimumPairs < 1 || !(0.0 < maximumCiWidth <= 2.0) || !(0.0 <= margin <= 1.0) {
      return Err("policy parameter out of range");
    }
    if baselineId == candidateId {
      return Err("baseline and candidate IDs must differ");
    }
    if |Experiments(trials, baselineId, candidateId)| != 1 {
      return Err("paired comparison requires one experiment");
    }
    if |Fingerprints(trials, baselineId)| != 1 || |Fingerprints(trials, candidateId)| != 1 {
      return Err("each candidate must have one config fingerprint");
    }
    if Fingerprints(trials, baselineId) == Fingerprints(trials, candidateId) {
      return Err("candidate configurations have identical fingerprints");
    }
    var baseline, candidate := PairUp(trials, baselineId, candidateId);
    if baseline.Keys != candidate.Keys {
      return Err("paired trials are incomplete");
    }
    if exists k :: k in baseline && !baseline[k].SameProvenance(candidate[k]) {
      return Err("a pair does not share scenario provenance");
    }
    SomeTrialSelected(trials, baselineId);
    var reasons := CompareReasons(wilson, baseline, candidate, minimumPairs, maximumCiWidth, margin);
    return Ok(Report(|baseline|, reasons));
  }

  // A candidate with a fingerprint has a trial, so its arm is not empty.
  lemma SomeTrialSelected(trials: seq<Trial>, id: string)
    requires Fingerprints(trials, id) != {}
    ensures |ArmOf(trials, id)| >= 1
  {
    var i :| 0 <= i < |trials| && trials[i].candidateId == id;
    ArmHolds(trials, id, i);
  }

  lemma {:induction false} ArmHolds(trials: seq<Trial>, id: string, i: nat)
    requires i < |trials| && trials[i].candidateId == id
    ensures trials[i].pairId in ArmOf(trials, id)
  {
    if i < |trials| - 1 {
      ArmHolds(trials[..|trials| - 1], id, i);
    }
  }

  // After the loader's identity check, pairing inside one experiment overwrites nothing: every
  // selected trial is the entry of its own pair.
  lemma {:induction false} PairingLossless(trials: seq<Trial>, id: string, i: nat)
    requires DistinctIdentities(trials)
    requires forall j, k :: 0 <= j < k < |trials| && trials[j].candidateId == id && trials[k].candidateId == id
                            ==> trials[j].experimentId == trials[k].experimentId
    requires i < |trials| && trials[i].candidateId == id
    ensures trials[i].pairId in ArmOf(trials, id) && ArmOf(trials, id)[trials[i].pairId] == trials[i]
  {
    var n := |trials| - 1;
    if i < n {
      PairingLossless(trials[..n], id, i);
      assert trials[i].Identity() != trials[n].Identity();
    }
  }

  // ----- Theorems

  // The reachability bound is exact: n pairs suffice for two flawless arms if and only if
  // n is at least the number the policy check asks for.
  lemma ReachablePairsExact(margin: real, n: int)
    requires n >= 1
    ensures MarginReachable(margin, n) <==> Narrowest(n, Z) <= margin
  {
    NarrowestBound(margin, n);
    if margin > 0.0 {
      MarginAlgebra(margin, n as real, Z * Z);
      CeilIsLeast(Z * Z * (1.0 - margin) / margin, n);
    }
  }

  lemma NarrowestBound(margin: real, n: int)
    requires n >= 1
    ensures Narrowest(n, Z) > 0.0
    ensures Narrowest(n, Z) <= margin <==> Z * Z <= margin * (n as real + Z * Z)
  {
    var b := n as real + Z * Z;
    OverFacts(Z * Z, b);
    OverUnique(margin * b, b, margin);
    OverOrder(Z * Z, margin * b, b);
  }

  lemma MarginAlgebra(margin: real, n: real, zz: real)
    requires margin > 0.0
    ensures zz <= margin * (n + zz) <==> zz * (1.0 - margin) / margin <= n
  {
    OverUnique(n * margin, margin, n);
    OverOrder(zz * (1.0 - margin), n * margin, margin);
    assert Over(zz * (1.0 - margin), margin) == zz * (1.0 - margin) / margin;
  }

  ghost predicate AllFlawless(arm: Arm) { forall k :: k in arm ==> arm[k].Flawless() }

  ghost predicate Uniform(arm: Arm, metric: Trial -> bool, value: bool) {
    forall k :: k in arm ==> metric(arm[k]) == value
  }

  lemma UniformSuccesses(arm: Arm, metric: Trial -> bool, value: bool)
    requires Uniform(arm, metric, value)
    ensures Successes(arm, metric) == if value then |arm| else 0
  {
    assert (set k | k in arm && metric(arm[k])) == if value then arm.Keys else {};
  }

  // Whatever the data, an interval over n pairs is at least 2 z*z/(n + z*z) wide, and only arms
  // that each succeed always or never reach that width.
  lemma NarrowestPossible(wilson: Scoring, baseline: Arm, candidate: Arm, metric: Trial -> bool)
    requires Scores(wilson, Z) && baseline.Keys == candidate.Keys && |baseline| >= 1
    ensures var n, w := |baseline|, Width(PairedBinary(wilson, baseline, candidate, metric));
            && w >= 2.0 * Narrowest(n, Z)
            && (w == 2.0 * Narrowest(n, Z) <==>
                Successes(baseline, metric) in {0, n} && Successes(candidate, metric) in {0, n})
  {
    assert |candidate| == |candidate.Keys| == |baseline.Keys| == |baseline|;
    assert Bounded(wilson, Successes(baseline, metric), |baseline|, Z);
    assert Bounded(wilson, Successes(candidate, metric), |baseline|, Z);
  }

  // The interval of two arms that both always succeed.
  lemma FlawlessInterval(wilson: Scoring, baseline: Arm, candidate: Arm, metric: Trial -> bool)
    requires Scores(wilson, Z) && baseline.Keys == candidate.Keys && |baseline| >= 1
    requires Uniform(baseline, metric, true) && Uniform(candidate, metric, true)
    ensures var m := Narrowest(|baseline|, Z); PairedBinary(wilson, baseline, candidate, metric) == Interval(-m, m)
  {
    assert |candidate| == |candidate.Keys| == |baseline.Keys| == |baseline|;
    UniformSuccesses(baseline, metric, true);
    UniformSuccesses(candidate, metric, true);
    assert Extremes(wilson, |baseline|, Z);
  }

  // The interval of an always-failing baseline and an always-succeeding candidate.
  lemma RescueInterval(wilson: Scoring, baseline: Arm, candidate: Arm, metric: Trial -> bool)
    requires Scores(wilson, Z) && baseline.Keys == candidate.Keys && |baseline| >= 1
    requires Uniform(baseline, metric, false) && Uniform(candidate, metric, true)
    ensures var m := Narrowest(|baseline|, Z);
            PairedBinary(wilson, baseline, candidate, metric) == Interval(1.0 - 2.0 * m, 1.0)
  {
    assert |candidate| == |candidate.Keys| == |baseline.Keys| == |baseline|;
    UniformSuccesses(baseline, metric, false);
    UniformSuccesses(candidate, metric, true);
    assert Extremes(wilson, |baseline|, Z);
  }

  // An arm that succeeds everywhere cannot regress the critical slice.
  lemma CriticalNeverRegresses(baseline: Arm, candidate: Arm, metric: Trial -> bool)
    requires baseline.Keys == candidate.Keys && Uniform(candidate, metric, true)
    ensures Successes(Critical(baseline, candidate), metric) >= Successes(Critical(baseline, baseline), metric)
  {
    var before, after := Critical(baseline, baseline), Critical(baseline, candidate);
    UniformSuccesses(after, metric, true);
    assert after.Keys == before.Keys;
    assert |after| == |after.Keys| == |before.Keys| == |before|;
  }

  // The gate can always read the recomputed intervals, and the stricter margin handed to the
  // evaluator covers both of the policy's own margins.
  lemma StricterMarginCovers(wilson: Scoring, baseline: Arm, candidate: Arm, policy: Policy)
    requires Scores(wilson, Z) && baseline.Keys == candidate.Keys && |baseline| >= 1
    ensures MarginReasons(wilson, baseline, candidate, policy).Ok?
    ensures CompareReasons(wilson, baseline, candidate, policy.minimumPairs, policy.maximumCiWidth,
                           StricterMargin(policy)) == []
            ==> MarginReasons(wilson, baseline, candidate, policy) == Ok([])
  {
    IntervalUsable(wilson, baseline, candidate, Recovery);
    IntervalUsable(wilson, baseline, candidate, Quality);
  }

  lemma IntervalUsable(wilson: Scoring, baseline: Arm, candidate: Arm, metric: Trial -> bool)
    requires Scores(wilson, Z) && baseline.Keys == candidate.Keys && |baseline| >= 1
    ensures Usable(PairedBinary(wilson, baseline, candidate, metric))
  {
    assert |candidate| == |candidate.Keys| == |baseline.Keys| == |baseline|;
    assert Bounded(wilson, Successes(baseline, metric), |baseline|, Z);
    assert Bounded(wilson, Successes(candidate, metric), |baseline|, Z);
  }

  lemma IntervalReasonsEmpty(pairs: int, recovery: Interval, quality: Interval,
                             minimumPairs: int, maximumCiWidth: real, margin: real)
    ensures IntervalReasons(pairs, recovery, quality, minimumPairs, maximumCiWidth, margin) == [] <==>
            && pairs >= minimumPairs
            && recovery.high - recovery.low <= maximumCiWidth && recovery.low >= -margin
            && quality.high - quality.low <= maximumCiWidth && quality.low >= -margin
  {}

  // The gate's verdict depends on the two intervals and on the trial-level reasons only.
  lemma PassesIff(wilson: Scoring, baseline: Arm, candidate: Arm, policy: Policy, recovery: Interval,
                  quality: Interval)
    requires Scores(wilson, Z) && baseline.Keys == candidate.Keys && |baseline| >= 1
    requires recovery == PairedBinary(wilson, baseline, candidate, Recovery)
    requires quality == PairedBinary(wilson, baseline, candidate, Quality)
    ensures Passes(wilson, baseline, candidate, policy) <==>
            && TrialReasons(baseline, candidate) == []
            && |baseline| >= policy.minimumPairs
            && recovery.high - recovery.low <= policy.maximumCiWidth && recovery.low >= -StricterMargin(policy)
            && quality.high - quality.low <= policy.maximumCiWidth && quality.low >= -StricterMargin(policy)
  {
    IntervalReasonsEmpty(|baseline|, recovery, quality, policy.minimumPairs, policy.maximumCiWidth,
                         StricterMargin(policy));
    StricterMarginCovers(wilson, baseline, candidate, policy);
  }

  // The trial-level reasons are absent exactly when every candidate trial is safe and fully
  // graded, every trial of both arms is traced and costed, and on the pairs the baseline marks
  // high or critical risk the candidate succeeds at least as often, on both metrics.
  lemma TrialReasonsEmpty(baseline: Arm, candidate: Arm)
    requires baseline.Keys == candidate.Keys
    ensures TrialReasons(baseline, candidate) == [] <==>
            && (forall k :: k in candidate ==> candidate[k].safetyOk && candidate[k].graderStatus == "PASS")
            && (forall k :: k in baseline ==> !Uncosted(baseline[k]) && !Uncosted(candidate[k]))
            && RiskySuccesses(baseline, candidate, Recovery) >= RiskySuccesses(baseline, baseline, Recovery)
            && RiskySuccesses(baseline, candidate, Quality) >= RiskySuccesses(baseline, baseline, Quality)
  {
    SliceRegression(baseline, candidate, Recovery);
    SliceRegression(baseline, candidate, Quality);
    TrialListEmpty(AnyUnsafe(candidate), AnyUngraded(candidate), AnyUncosted(baseline) || AnyUncosted(candidate),
                   SliceRegresses(baseline, candidate, Recovery), SliceRegresses(baseline, candidate, Quality));
  }

  lemma TrialListEmpty(unsafe: bool, ungraded: bool, uncosted: bool, recovery: bool, quality: bool)
    ensures TrialList(unsafe, ungraded, uncosted, recovery, quality) == [] <==>
            !unsafe && !ungraded && !uncosted && !recovery && !quality
  {}

  // An empty risky slice has no successes, so that it cannot have fewer.
  lemma SliceRegression(baseline: Arm, candidate: Arm, metric: Trial -> bool)
    requires baseline.Keys == candidate.Keys
    ensures SliceRegresses(baseline, candidate, metric) <==>
            RiskySuccesses(baseline, candidate, metric) < RiskySuccesses(baseline, baseline, metric)
  {
    RiskyIsCritical(baseline, candidate, metric);
    RiskyIsCritical(baseline, baseline, metric);
  }

  // Successes of an arm among the pairs the baseline marks as risky.
  ghost function RiskySuccesses(baseline: Arm, arm: Arm, metric: Trial -> bool): nat {
    |set k | k in arm && k in baseline && baseline[k].riskClass in {"high", "critical"} && metric(arm[k])|
  }

  lemma RiskyIsCritical(baseline: Arm, arm: Arm, metric: Trial -> bool)
    ensures Successes(Critical(baseline, arm), metric) == RiskySuccesses(baseline, arm, metric)
  {
    var slice := Critical(baseline, arm);
    assert (set k | k in slice && metric(slice[k])) ==
           set k | k in arm && k in baseline && baseline[k].riskClass in {"high", "critical"} && metric(arm[k]);
  }

  // A flawless candidate over fully costed trials raises no trial-level reason.
  lemma FlawlessTrials(baseline: Arm, candidate: Arm)
    requires baseline.Keys == candidate.Keys && AllFlawless(candidate)
    requires forall k :: k in baseline ==> !Uncosted(baseline[k])
    ensures TrialReasons(baseline, candidate) == []
  {
    CriticalNeverRegresses(baseline, candidate, Recovery);
    CriticalNeverRegresses(baseline, candidate, Quality);
  }

  // For flawless arms the whole gate reduces to two inequalities on the number of pairs.
  lemma FlawlessVerdict(wilson: Scoring, baseline: Arm, candidate: Arm, policy: Policy)
    requires Scores(wilson, Z) && baseline.Keys == candidate.Keys && |baseline| >= 1
    requires AllFlawless(baseline) && AllFlawless(candidate)
    ensures var m := Narrowest(|baseline|, Z);
            Passes(wilson, baseline, candidate, policy) <==>
            |baseline| >= policy.minimumPairs && 2.0 * m <= policy.maximumCiWidth && m <= StricterMargin(policy)
  {
    FlawlessInterval(wilson, baseline, candidate, Recovery);
    FlawlessInterval(wilson, baseline, candidate, Quality);
    FlawlessTrials(baseline, candidate);
    var m := Narrowest(|baseline|, Z);
    PassesIff(wilson, baseline, candidate, policy, Interval(-m, m), Interval(-m, m));
  }

  lemma WidthTerm(n: int)
    requires n >= 1
    ensures Widest(n) == 2.0 * Narrowest(n, Z)
  {}

  lemma AcceptedIff(policy: Policy)
    requires policy.minimumPairs >= 1
    ensures var m := Narrowest(policy.minimumPairs, Z);
            Accepted(policy) <==> 2.0 * m <= policy.maximumCiWidth && m <= StricterMargin(policy)
  {
    ReachablePairsExact(policy.recoveryMargin, policy.minimumPairs);
    ReachablePairsExact(policy.qualityMargin, policy.minimumPairs);
    WidthTerm(policy.minimumPairs);
  }

  // The policy check is exact: it accepts a policy if and only if two flawless arms with
  // exactly `minimum_pairs` pairs get PROMOTE and clear both margins.
  lemma AcceptedIsExact(wilson: Scoring, baseline: Arm, candidate: Arm, policy: Policy)
    requires Scores(wilson, Z) && WellFormed(policy)
    requires baseline.Keys == candidate.Keys && |baseline| == policy.minimumPairs
    requires AllFlawless(baseline) && AllFlawless(candidate)
    ensures Accepted(policy) <==> Passes(wilson, baseline, candidate, policy)
  {
    FlawlessVerdict(wilson, baseline, candidate, policy);
    AcceptedIff(policy);
  }

  lemma NarrowestDecreases(n: int, n': int)
    requires 1 <= n <= n'
    ensures Narrowest(n', Z) <= Narrowest(n, Z)
  {
    var m := Narrowest(n, Z);
    NarrowestBound(m, n);
    NarrowestBound(m, n');
    TimesNonNegative(m, (n' - n) as real);
    assert m * (n' as real + Z * Z) == m * (n as real + Z * Z) + m * ((n' - n) as real);
  }

  // An accepted policy is passed by flawless arms of any size from `minimum_pairs` up.
  lemma AcceptedIsReachable(wilson: Scoring, baseline: Arm, candidate: Arm, policy: Policy)
    requires Scores(wilson, Z) && WellFormed(policy) && Accepted(policy)
    requires baseline.Keys == candidate.Keys && |baseline| >= policy.minimumPairs
    requires AllFlawless(baseline) && AllFlawless(candidate)
    ensures Passes(wilson, baseline, candidate, policy)
  {
    FlawlessVerdict(wilson, baseline, candidate, policy);
    NarrowestDecreases(policy.minimumPairs, |baseline|);
    AcceptedIff(policy);
  }

  // ----- Which policies data can satisfy

  // Whatever the data, the lower bound over n pairs is at most 1 - 2 z*z/(n + z*z).
  lemma HighestPossible(wilson: Scoring, baseline: Arm, candidate: Arm, metric: Trial -> bool)
    requires Scores(wilson, Z) && baseline.Keys == candidate.Keys && |baseline| >= 1
    ensures PairedBinary(wilson, baseline, candidate, metric).low <= 1.0 - 2.0 * Narrowest(|baseline|, Z)
  {
    assert |candidate| == |candidate.Keys| == |baseline.Keys| == |baseline|;
    var n, b, c := |baseline|, Successes(baseline, metric), Successes(candidate, metric);
    assert Extremes(wilson, n, Z);
    assert wilson(c, n).low <= wilson(n, n).low && wilson(b, n).high >= wilson(0, n).high;
  }

  // The number of pairs is large enough for some data to pass.
  predicate LargeEnough(policy: Policy, n: int)
    requires n >= 1
  {
    var m := Narrowest(n, Z);
    n >= policy.minimumPairs && 2.0 * m <= policy.maximumCiWidth && 2.0 * m <= 1.0 + StricterMargin(policy)
  }

  // Data that pass are large enough, whatever they are.
  lemma PassingIsLargeEnough(wilson: Scoring, baseline: Arm, candidate: Arm, policy: Policy)
    requires Scores(wilson, Z) && baseline.Keys == candidate.Keys && |baseline| >= 1
    requires Passes(wilson, baseline, candidate, policy)
    ensures LargeEnough(policy, |baseline|)
  {
    var recovery := PairedBinary(wilson, baseline, candidate, Recovery);
    PassesIff(wilson, baseline, candidate, policy, recovery, PairedBinary(wilson, baseline, candidate, Quality));
    NarrowestPossible(wilson, baseline, candidate, Recovery);
    HighestPossible(wilson, baseline, candidate, Recovery);
  }

  // A candidate that rescues an always-failing baseline passes exactly when it is large enough.
  lemma RescueVerdict(wilson: Scoring, baseline: Arm, candidate: Arm, policy: Policy)
    requires Scores(wilson, Z) && baseline.Keys == candidate.Keys && |baseline| >= 1
    requires Uniform(baseline, Recovery, false) && AllFlawless(candidate)
    requires forall k :: k in baseline ==> !Uncosted(baseline[k])
    ensures Passes(wilson, baseline, candidate, policy) <==> LargeEnough(policy, |baseline|)
  {
    assert Uniform(baseline, Quality, false);
    RescueInterval(wilson, baseline, candidate, Recovery);
    RescueInterval(wilson, baseline, candidate, Quality);
    FlawlessTrials(baseline, candidate);
    var i := Interval(1.0 - 2.0 * Narrowest(|baseline|, Z), 1.0);
    PassesIff(wilson, baseline, candidate, policy, i, i);
  }

  // Some data of exactly n pairs, with shared provenance, pass evaluator and margins.
  ghost predicate Satisfiable(wilson: Scoring, policy: Policy, n: int) {
    exists baseline: Arm, candidate: Arm ::
      && Paired(baseline, candidate) && |baseline| == n >= 1
      && Passes(wilson, baseline, candidate, policy)
  }

  // A trial that is graded, safe, traced and costed, recovered or not.
  function SampleTrial(pairId: string, arm: string, recovered: bool): Trial {
    Trial("experiment", pairId, arm, arm, "scenario", "1", "dataset", "low", recovered, false, "PASS", true,
          Some(0.0), true, 1, None, None)
  }

  // n pairs of one arm, each with an identifier of its own.
  ghost function SampleArm(n: nat, arm: string, recovered: bool): (r: Arm)
    ensures r.Keys == PairIds(n) && |r| == n
    ensures forall k :: k in r ==> r[k] == SampleTrial(k, arm, recovered)
  {
    PairIdsSize(n);
    var r := map k | k in PairIds(n) :: SampleTrial(k, arm, recovered);
    assert r.Keys == PairIds(n);
    r
  }

  ghost function PairId(i: nat): string { seq(i, _ => 'x') }

  ghost function PairIds(n: nat): set<string> { set i: nat | i < n :: PairId(i) }

  lemma {:induction false} PairIdsSize(n: nat)
    ensures |PairIds(n)| == n
  {
    if n > 0 {
      PairIdsSize(n - 1);
      assert PairIds(n) == PairIds(n - 1) + {PairId(n - 1)};
      forall i: nat | i < n - 1 ensures PairId(i) != PairId(n - 1) {
        assert |PairId(i)| == i && |PairId(n - 1)| == n - 1;
      }
    }
  }

  // Exactly when a policy can be satisfied by n pairs: two inequalities on n, and nothing else,
  // decide whether any data of that size pass.
  lemma SatisfiableIff(wilson: Scoring, policy: Policy, n: int)
    requires Scores(wilson, Z) && n >= 1
    ensures Satisfiable(wilson, policy, n) <==> LargeEnough(policy, n)
  {
    var baseline, candidate := SampleArm(n, "baseline", false), SampleArm(n, "candidate", true);
    assert Paired(baseline, candidate);
    RescueVerdict(wilson, baseline, candidate, policy);
    if Satisfiable(wilson, policy, n) {
      var b: Arm, c: Arm :| Paired(b, c) && |b| == n >= 1 && Passes(wilson, b, c, policy);
      PassingIsLargeEnough(wilson, b, c, policy);
    }
  }

  // More pairs never make a policy unsatisfiable.
  lemma SatisfiableUpwards(wilson: Scoring, policy: Policy, n: int, n': int)
    requires Scores(wilson, Z) && 1 <= n <= n'
    ensures Satisfiable(wilson, policy, n) ==> Satisfiable(wilson, policy, n')
  {
    SatisfiableIff(wilson, policy, n);
    SatisfiableIff(wilson, policy, n');
    NarrowestDecreases(n, n');
  }

  // No policy within the loader's bounds is beyond every evaluation: from 800 pairs up, and from
  // its own minimum up, data exist that pass it, whether the check accepts it or not.
  lemma EveryPolicySatisfiable(wilson: Scoring, policy: Policy, n: int)
    requires Scores(wilson, Z) && WellFormed(policy) && n >= policy.minimumPairs && n >= 800
    ensures Satisfiable(wilson, policy, n)
  {
    NarrowestBound(0.005, n);
    SatisfiableIff(wilson, policy, n);
  }

  // The width half of the check refuses a policy exactly when all data of its minimum size are too
  // wide for it.
  lemma WidthRefusalExact(wilson: Scoring, policy: Policy)
    requires Scores(wilson, Z) && WellFormed(policy)
    ensures Widest(policy.minimumPairs) > policy.maximumCiWidth <==>
            forall baseline: Arm, candidate: Arm :: Paired(baseline, candidate) && |baseline| == policy.minimumPairs
              ==> Width(PairedBinary(wilson, baseline, candidate, Recovery)) > policy.maximumCiWidth
  {
    WidthTerm(policy.minimumPairs);
    forall baseline: Arm, candidate: Arm | Paired(baseline, candidate) && |baseline| == policy.minimumPairs
      ensures Width(PairedBinary(wilson, baseline, candidate, Recovery)) >= Widest(policy.minimumPairs)
    {
      NarrowestPossible(wilson, baseline, candidate, Recovery);
    }
    var arm := SampleArm(policy.minimumPairs, "arm", true);
    assert Paired(arm, arm);
    FlawlessInterval(wilson, arm, arm, Recovery);
  }

  // Every accepted policy is satisfied by data of its minimum size, but not only those: exactly
  // the refused policies described by these three inequalities are satisfied as well.
  lemma RefusedSatisfiableIff(wilson: Scoring, policy: Policy)
    requires Scores(wilson, Z) && WellFormed(policy)
    ensures Accepted(policy) ==> Satisfiable(wilson, policy, policy.minimumPairs)
    ensures var m := Narrowest(policy.minimumPairs, Z);
            !Accepted(policy) && Satisfiable(wilson, policy, policy.minimumPairs) <==>
              && m > StricterMargin(policy)
              && 2.0 * m <= policy.maximumCiWidth && 2.0 * m <= 1.0 + StricterMargin(policy)
  {
    AcceptedIff(policy);
    SatisfiableIff(wilson, policy, policy.minimumPairs);
    NarrowestBound(1.0, policy.minimumPairs);
  }

  // The policy the check's own words take for unsatisfiable, twenty pairs and margin 0.05, is
  // refused although twenty pairs of data satisfy it with width 0.4.
  lemma RefusedYetSatisfiable(wilson: Scoring)
    requires Scores(wilson, Z)
    ensures var policy := Policy(20, 0.4, 0.05, 0.05);
            WellFormed(policy) && !Accepted(policy) && Satisfiable(wilson, policy, 20)
  {
    var policy := Policy(20, 0.4, 0.05, 0.05);
    NarrowestBound(0.05, 20);
    NarrowestBound(0.2, 20);
    RefusedSatisfiableIff(wilson, policy);
  }

  // ----- The gate with the code's own interval

  // The gate's two exact results, for one interval function.
  ghost predicate GateIsExact(wilson: Scoring) {
    && (forall policy, n: int :: n >= 1 ==> (Satisfiable(wilson, policy, n) <==> LargeEnough(policy, n)))
    && (forall policy, baseline: Arm, candidate: Arm ::
          WellFormed(policy) && FlawlessPair(baseline, candidate) && |baseline| == policy.minimumPairs ==>
            (Accepted(policy) <==> Passes(wilson, baseline, candidate, policy)))
  }

  ghost predicate FlawlessPair(baseline: Arm, candidate: Arm) {
    baseline.Keys == candidate.Keys && AllFlawless(baseline) && AllFlawless(candidate)
  }

  lemma ScoringGate(wilson: Scoring)
    requires Scores(wilson, Z)
    ensures GateIsExact(wilson)
  {
    forall policy, n: int | n >= 1 ensures Satisfiable(wilson, policy, n) <==> LargeEnough(policy, n) {
      SatisfiableIff(wilson, policy, n);
    }
    forall policy, baseline: Arm, candidate: Arm
      | WellFormed(policy) && FlawlessPair(baseline, candidate) && |baseline| == policy.minimumPairs
      ensures Accepted(policy) <==> Passes(wilson, baseline, candidate, policy)
    {
      AcceptedIsExact(wilson, baseline, candidate, policy);
    }
  }

  // They hold of the interval the code computes.
  lemma CodeGate(sqrt: real -> real)
    requires SquareRoot(sqrt)
    ensures GateIsExact(WilsonScoring(sqrt, Z))
  {
    WilsonScores(sqrt, Z);
    ScoringGate(WilsonScoring(sqrt, Z));
  }
}

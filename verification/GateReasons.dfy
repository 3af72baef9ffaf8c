/**
 Each reason of the comparison and of the gate is given exactly for its own cause
 (evals/benchmarks/statistical_eval.py, evals/benchmarks/release_gate.py).
 */
module GateReasons {
  import opened Results
  import opened Trials
  import opened Wilson
  import opened ReleaseGate

  // The successes of an arm, by the fields of its trials: a recovery is resolved and not falsely so, a
  // quality success is also fully graded and safe.
  lemma SuccessesMean(arm: Arm)
    ensures Successes(arm, Recovery) == |set k | k in arm && arm[k].resolved && !arm[k].falseResolved|
    ensures Successes(arm, Quality) ==
            |set k | k in arm && arm[k].resolved && !arm[k].falseResolved
                     && arm[k].graderStatus == "PASS" && arm[k].safetyOk|
  {
    assert (set k | k in arm && Recovery(arm[k])) == set k | k in arm && arm[k].resolved && !arm[k].falseResolved;
    assert (set k | k in arm && Quality(arm[k])) ==
           set k | k in arm && arm[k].resolved && !arm[k].falseResolved
                   && arm[k].graderStatus == "PASS" && arm[k].safetyOk;
  }

  // Candidate minus baseline, by the two samples' own bounds.
  ghost function Difference(wilson: Scoring, baseline: int, candidate: int, n: int): Interval {
    Interval(wilson(candidate, n).low - wilson(baseline, n).high, wilson(candidate, n).high - wilson(baseline, n).low)
  }

  lemma PairedDifference(wilson: Scoring, baseline: Arm, candidate: Arm, metric: Trial -> bool)
    requires baseline.Keys == candidate.Keys
    ensures PairedBinary(wilson, baseline, candidate, metric) ==
            Difference(wilson, Successes(baseline, metric), Successes(candidate, metric), |baseline|)
  {
    assert |candidate| == |candidate.Keys| == |baseline.Keys| == |baseline|;
  }

  lemma FiveListed(a: bool, b: bool, c: bool, d: bool, e: bool, ra: Reason, rb: Reason, rc: Reason, rd: Reason,
                   re: Reason, x: Reason)
    ensures x in When(a, ra) + When(b, rb) + When(c, rc) + When(d, rd) + When(e, re) <==>
            || (a && x == ra) || (b && x == rb) || (c && x == rc) || (d && x == rd) || (e && x == re)
  {}

  // The five reasons read off the two intervals.
  ghost predicate IntervalCause(x: Reason, pairs: int, recovery: Interval, quality: Interval,
                                minimumPairs: int, maximumCiWidth: real, margin: real)
  {
    match x
    case TooFewPairs => pairs < minimumPairs
    case RecoveryTooWide => recovery.high - recovery.low > maximumCiWidth
    case RecoveryInferior => recovery.low < -margin
    case QualityTooWide => quality.high - quality.low > maximumCiWidth
    case QualityInferior => quality.low < -margin
    case _ => false
  }

  lemma IntervalReasonsMean(x: Reason, pairs: int, recovery: Interval, quality: Interval,
                            minimumPairs: int, maximumCiWidth: real, margin: real)
    ensures x in IntervalReasons(pairs, recovery, quality, minimumPairs, maximumCiWidth, margin) <==>
            IntervalCause(x, pairs, recovery, quality, minimumPairs, maximumCiWidth, margin)
  {
    FiveListed(pairs < minimumPairs, recovery.high - recovery.low > maximumCiWidth, recovery.low < -margin,
               quality.high - quality.low > maximumCiWidth, quality.low < -margin,
               TooFewPairs, RecoveryTooWide, RecoveryInferior, QualityTooWide, QualityInferior, x);
  }

  ghost predicate LacksCost(t: Trial) { !t.traceComplete || t.costUsd == None }

  // The five reasons read off single trials and the risky slice.
  ghost predicate TrialCause(x: Reason, baseline: Arm, candidate: Arm)
    requires baseline.Keys == candidate.Keys
  {
    match x
    case SafetyFailure => exists k :: k in candidate && !candidate[k].safetyOk
    case IncompleteGrades => exists k :: k in candidate && candidate[k].graderStatus != "PASS"
    case MissingTraceCost => exists k :: k in baseline && (LacksCost(baseline[k]) || LacksCost(candidate[k]))
    case CriticalRecoveryRegression =>
      RiskySuccesses(baseline, candidate, Recovery) < RiskySuccesses(baseline, baseline, Recovery)
    case CriticalQualityRegression =>
      RiskySuccesses(baseline, candidate, Quality) < RiskySuccesses(baseline, baseline, Quality)
    case _ => false
  }

  // A reason is the one listed for some condition that holds.
  ghost predicate Listed(x: Reason, unsafe: bool, ungraded: bool, uncosted: bool, recovery: bool, quality: bool) {
    || (unsafe && x == SafetyFailure) || (ungraded && x == IncompleteGrades) || (uncosted && x == MissingTraceCost)
    || (recovery && x == CriticalRecoveryRegression) || (quality && x == CriticalQualityRegression)
  }

  lemma TrialListMean(x: Reason, unsafe: bool, ungraded: bool, uncosted: bool, recovery: bool, quality: bool)
    ensures x in TrialList(unsafe, ungraded, uncosted, recovery, quality) <==>
            Listed(x, unsafe, ungraded, uncosted, recovery, quality)
  {
    FiveListed(unsafe, ungraded, uncosted, recovery, quality, SafetyFailure, IncompleteGrades, MissingTraceCost,
               CriticalRecoveryRegression, CriticalQualityRegression, x);
  }

  lemma ListedMeans(x: Reason, baseline: Arm, candidate: Arm,
                    unsafe: bool, ungraded: bool, uncosted: bool, recovery: bool, quality: bool)
    requires baseline.Keys == candidate.Keys
    requires unsafe <==> TrialCause(SafetyFailure, baseline, candidate)
    requires ungraded <==> TrialCause(IncompleteGrades, baseline, candidate)
    requires uncosted <==> TrialCause(MissingTraceCost, baseline, candidate)
    requires recovery <==> TrialCause(CriticalRecoveryRegression, baseline, candidate)
    requires quality <==> TrialCause(CriticalQualityRegression, baseline, candidate)
    ensures Listed(x, unsafe, ungraded, uncosted, recovery, quality) <==> TrialCause(x, baseline, candidate)
  {
    match x {
      case SafetyFailure => assert x == SafetyFailure;
      case IncompleteGrades => assert x == IncompleteGrades;
      case MissingTraceCost => assert x == MissingTraceCost;
      case CriticalRecoveryRegression => assert x == CriticalRecoveryRegression;
      case CriticalQualityRegression => assert x == CriticalQualityRegression;
      case _ =>
    }
  }

  lemma ArmCauses(baseline: Arm, candidate: Arm)
    requires baseline.Keys == candidate.Keys
    ensures AnyUnsafe(candidate) <==> TrialCause(SafetyFailure, baseline, candidate)
    ensures AnyUngraded(candidate) <==> TrialCause(IncompleteGrades, baseline, candidate)
  {}

  lemma SliceCauses(baseline: Arm, candidate: Arm)
    requires baseline.Keys == candidate.Keys
    ensures SliceRegresses(baseline, candidate, Recovery) <==>
            TrialCause(CriticalRecoveryRegression, baseline, candidate)
    ensures SliceRegresses(baseline, candidate, Quality) <==>
            TrialCause(CriticalQualityRegression, baseline, candidate)
  {
    SliceRegression(baseline, candidate, Recovery);
    SliceRegression(baseline, candidate, Quality);
  }

  lemma CostCause(baseline: Arm, candidate: Arm)
    requires baseline.Keys == candidate.Keys
    ensures AnyUncosted(baseline) || AnyUncosted(candidate) <==>
            TrialCause(MissingTraceCost, baseline, candidate)
  {
    assert forall k :: k in candidate <==> k in baseline;
    if k :| k in baseline && (LacksCost(baseline[k]) || LacksCost(candidate[k])) {
      assert Uncosted(baseline[k]) || Uncosted(candidate[k]);
    }
    if AnyUncosted(baseline) {
      var k :| k in baseline && Uncosted(baseline[k]);
      assert LacksCost(baseline[k]);
    }
    if AnyUncosted(candidate) {
      var k :| k in candidate && Uncosted(candidate[k]);
      assert LacksCost(candidate[k]);
    }
  }

  lemma TrialReasonsMean(x: Reason, baseline: Arm, candidate: Arm)
    requires baseline.Keys == candidate.Keys
    ensures x in TrialReasons(baseline, candidate) <==> TrialCause(x, baseline, candidate)
  {
    var unsafe, ungraded := AnyUnsafe(candidate), AnyUngraded(candidate);
    var uncosted := AnyUncosted(baseline) || AnyUncosted(candidate);
    var recovery := SliceRegresses(baseline, candidate, Recovery);
    var quality := SliceRegresses(baseline, candidate, Quality);
    ArmCauses(baseline, candidate);
    CostCause(baseline, candidate);
    SliceCauses(baseline, candidate);
    ListedMeans(x, baseline, candidate, unsafe, ungraded, uncosted, recovery, quality);
    TrialListMean(x, unsafe, ungraded, uncosted, recovery, quality);
  }

  // The comparison lists a reason exactly when its cause is there.
  lemma ReasonsMean(x: Reason, wilson: Scoring, baseline: Arm, candidate: Arm,
                    minimumPairs: int, maximumCiWidth: real, margin: real)
    requires baseline.Keys == candidate.Keys
    ensures var n := |baseline|;
            var recovery := Difference(wilson, Successes(baseline, Recovery), Successes(candidate, Recovery), n);
            var quality := Difference(wilson, Successes(baseline, Quality), Successes(candidate, Quality), n);
            x in CompareReasons(wilson, baseline, candidate, minimumPairs, maximumCiWidth, margin) <==>
            || IntervalCause(x, n, recovery, quality, minimumPairs, maximumCiWidth, margin)
            || TrialCause(x, baseline, candidate)
  {
    PairedDifference(wilson, baseline, candidate, Recovery);
    PairedDifference(wilson, baseline, candidate, Quality);
    IntervalReasonsMean(x, |baseline|, PairedBinary(wilson, baseline, candidate, Recovery),
                        PairedBinary(wilson, baseline, candidate, Quality), minimumPairs, maximumCiWidth, margin);
    TrialReasonsMean(x, baseline, candidate);
  }

  // The gate reads intervals within [-1, 1] and gives its two reasons each for its own metric and margin.
  lemma MarginsMean(wilson: Scoring, baseline: Arm, candidate: Arm, policy: Policy)
    requires baseline.Keys == candidate.Keys
    ensures var r, n := MarginReasons(wilson, baseline, candidate, policy), |baseline|;
            var recovery := Difference(wilson, Successes(baseline, Recovery), Successes(candidate, Recovery), n);
            var quality := Difference(wilson, Successes(baseline, Quality), Successes(candidate, Quality), n);
            && (r.Ok? <==>
                  -1.0 <= recovery.low <= recovery.high <= 1.0 && -1.0 <= quality.low <= quality.high <= 1.0)
            && (r.Ok? ==> forall x :: x in r.value <==>
                  || (x == RecoveryMarginExceeded && recovery.low < -policy.recoveryMargin)
                  || (x == QualityMarginExceeded && quality.low < -policy.qualityMargin))
  {
    PairedDifference(wilson, baseline, candidate, Recovery);
    PairedDifference(wilson, baseline, candidate, Quality);
  }
}

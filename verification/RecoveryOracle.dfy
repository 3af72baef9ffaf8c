/**
 The recovery oracle tracker: raw observations in, a recovery verdict out
 (evals/benchmarks/recovery_oracle.py).
 */
module RecoveryOracle {
  import opened Results

  datatype Operator = Lt | Lte | Gt | Gte | Eq

  // What a query returned: nothing, a number that is not finite, or a finite one.
  datatype Reading = Missing | NotFinite | Finite(v: real)

  datatype Timestamp = Aware(t: int) | Naive(t: int)

  datatype Health = Passing | Failing | Unknown

  datatype Phase = Baseline | Recovery

  datatype Observation = Observation(at: int, reading: Reading, health: Health, phase: Phase)

  datatype Status = VerifiedRecovered | NoActionCorrect | Unresolved | InvalidScenario

  datatype Probe = Probe(operator: Operator, threshold: real, requiredPasses: int, requireFailure: bool) {
    predicate Valid() { requiredPasses >= 1 }

    predicate Passes(v: real) {
      match operator
      case Lt => v < threshold
      case Lte => v <= threshold
      case Gt => v > threshold
      case Gte => v >= threshold
      case Eq => v == threshold
    }

    function Classify(reading: Reading, failed: bool): Health {
      if failed || !reading.Finite? then Unknown
      else if Passes(reading.v) then Passing
      else Failing
    }
  }

  // ----- What the log says

  // The state of the baseline observation, if one was made.
  function BaselineOf(log: seq<Observation>): Option<Health> {
    if log == [] then None
    else if log[|log| - 1].phase == Baseline then Some(log[|log| - 1].health)
    else BaselineOf(log[..|log| - 1])
  }

  // The observations made after the baseline.
  function After(log: seq<Observation>): seq<Observation> {
    if BaselineOf(log).None? || log[|log| - 1].phase == Baseline then []
    else After(log[..|log| - 1]) + [log[|log| - 1]]
  }

  predicate SawFailure(h: seq<Observation>) { exists i :: 0 <= i < |h| && h[i].health == Failing }

  // The length of the passing run the history ends with.
  function PassingSuffix(h: seq<Observation>): (n: nat)
    ensures n <= |h|
  {
    if h == [] || h[|h| - 1].health != Passing then 0 else PassingSuffix(h[..|h| - 1]) + 1
  }

  function Streak(probe: Probe, h: seq<Observation>): nat {
    if probe.requireFailure && !SawFailure(h) then 0 else PassingSuffix(h)
  }

  function FirstRecovery(probe: Probe, h: seq<Observation>): Option<int> {
    if h == [] then None
    else
      var earlier := FirstRecovery(probe, h[..|h| - 1]);
      if earlier.Some? then earlier
      else if Streak(probe, h) >= probe.requiredPasses then Some(h[|h| - 1].at)
      else None
  }

  // Observation k completes a recovery: the required number of consecutive passes ends there,
  // all of them after a failure when the probe must be armed by one.
  ghost predicate Recovers(probe: Probe, h: seq<Observation>, k: int)
    requires probe.Valid()
  {
    var n := probe.requiredPasses;
    && n - 1 <= k < |h|
    && (forall i :: k - n < i <= k ==> h[i].health == Passing)
    && (probe.requireFailure ==> exists f :: 0 <= f <= k - n && h[f].health == Failing)
  }

  // The tracker's fields are functions of its log.
  ghost predicate Reflects(probe: Probe, log: seq<Observation>, baselineHealthy: Option<bool>,
                           failureObserved: bool, consecutivePasses: int, recoveredAt: Option<int>)
  {
    var h := After(log);
    && baselineHealthy == (match BaselineOf(log)
                           case Some(Passing) => Some(true)
                           case Some(Failing) => Some(false)
                           case _ => None)
    && (if baselineHealthy == Some(true) then
          && failureObserved == SawFailure(h)
          && consecutivePasses == Streak(probe, h)
          && recoveredAt == FirstRecovery(probe, h)
        else
          !failureObserved && consecutivePasses == 0 && recoveredAt == None)
  }

  lemma AfterRecovery(log: seq<Observation>, o: Observation)
    requires o.phase == Recovery
    ensures BaselineOf(log + [o]) == BaselineOf(log)
    ensures After(log + [o]) == if BaselineOf(log).Some? then After(log) + [o] else []
  {
    assert (log + [o])[..|log|] == log;
  }

  lemma SuffixStep(h: seq<Observation>, o: Observation)
    ensures PassingSuffix(h + [o]) == if o.health == Passing then PassingSuffix(h) + 1 else 0
    ensures SawFailure(h + [o]) <==> SawFailure(h) || o.health == Failing
  {
    assert (h + [o])[..|h|] == h;
    assert (h + [o])[|h|] == o;
    if SawFailure(h) {
      var i :| 0 <= i < |h| && h[i].health == Failing;
      assert (h + [o])[i].health == Failing;
    }
  }

  lemma RecoveryStep(probe: Probe, h: seq<Observation>, o: Observation)
    ensures FirstRecovery(probe, h + [o]) ==
            if FirstRecovery(probe, h).Some? then FirstRecovery(probe, h)
            else if Streak(probe, h + [o]) >= probe.requiredPasses then Some(o.at) else None
  {
    assert (h + [o])[..|h|] == h;
  }

  // How one observation moves the three counters of a tracker whose log is reflected.
  lemma ReflectsStep(probe: Probe, log: seq<Observation>, o: Observation, baselineHealthy: Option<bool>,
                     failureObserved: bool, consecutivePasses: int, recoveredAt: Option<int>)
    requires probe.Valid() && o.phase == Recovery
    requires Reflects(probe, log, baselineHealthy, failureObserved, consecutivePasses, recoveredAt)
    ensures var healthy := baselineHealthy == Some(true);
            var failure := failureObserved || (healthy && o.health == Failing);
            var passes :=
              if healthy && o.health == Passing && (failure || !probe.requireFailure) then consecutivePasses + 1 else 0;
            var recovered := if recoveredAt.None? && healthy && passes >= probe.requiredPasses then Some(o.at)
              else recoveredAt;
            Reflects(probe, log + [o], baselineHealthy, failure, passes, recovered)
  {
    AfterRecovery(log, o);
    SuffixStep(After(log), o);
    RecoveryStep(probe, After(log), o);
    StreakStep(probe, After(log), o);
  }

  lemma StreakStep(probe: Probe, h: seq<Observation>, o: Observation)
    ensures Streak(probe, h + [o]) ==
            if o.health == Passing && (SawFailure(h) || !probe.requireFailure) then Streak(probe, h) + 1 else 0
  {
    SuffixStep(h, o);
  }

  // ----- The tracker

  datatype Verdict = Verdict(status: Status, mttr: Option<int>, falseResolved: bool)

  class RecoveryOracleTracker {
    const probe: Probe
    var startedAt: int
    var observations: seq<Observation>
    var baselineHealthy: Option<bool>
    var failureObserved: bool
    var consecutivePasses: int
    var recoveredAt: Option<int>

    constructor (p: Probe, started: int)
      requires p.Valid()
      ensures Valid() && probe == p && startedAt == started && observations == []
    {
      probe, startedAt := p, started;
      observations, baselineHealthy, failureObserved, consecutivePasses, recoveredAt := [], None, false, 0, None;
    }

    ghost predicate Valid()
      reads this
    {
      probe.Valid() && Reflects(probe, observations, baselineHealthy, failureObserved, consecutivePasses, recoveredAt)
    }

    method Begin(at: Timestamp) returns (r: Result<(), string>)
      requires Valid()
      modifies `startedAt
      ensures Valid()
      ensures r.Ok? <==> at.Aware? && forall i :: 0 <= i < |observations| ==> observations[i].phase != Recovery
      ensures startedAt == if r.Ok? then at.t else old(startedAt)
    {
      if at.Naive? {
        return Err("started_at must be timezone-aware");
      }
      if exists i :: 0 <= i < |observations| && observations[i].phase == Recovery {
        return Err("cannot move started_at after recovery polling began");
      }
      startedAt := at.t;
      return Ok(());
    }

    method EstablishBaseline(reading: Reading, failed: bool, at: Timestamp) returns (r: Result<Observation, string>)
      requires Valid()
      modifies this
      ensures Valid() && startedAt == old(startedAt)
      ensures r.Ok? <==> at.Aware? && BaselineOf(old(observations)).None?
      ensures r.Ok? ==> r.value == Observation(at.t, reading, probe.Classify(reading, failed), Baseline)
      ensures observations == if r.Ok? then old(observations) + [r.value] else old(observations)
    {
      BaselineIff(observations);
      if baselineHealthy.Some? || exists i :: 0 <= i < |observations| && observations[i].phase == Baseline {
        return Err("oracle baseline was already established");
      }
      if at.Naive? {
        return Err("observed_at must be timezone-aware");
      }
      var health: Health;
      if failed || !reading.Finite? {
        health, baselineHealthy := Unknown, None;
      } else if probe.Passes(reading.v) {
        health, baselineHealthy := Passing, Some(true);
      } else {
        health, baselineHealthy := Failing, Some(false);
      }
      var observation := Observation(at.t, reading, health, Baseline);
      observations := observations + [observation];
      return Ok(observation);
    }

    method Observe(reading: Reading, failed: bool, at: Timestamp) returns (r: Result<Observation, string>)
      requires Valid()
      modifies this
      ensures Valid() && startedAt == old(startedAt)
      ensures r.Ok? <==> at.Aware?
      ensures r.Ok? ==> r.value == Observation(at.t, reading, probe.Classify(reading, failed), Recovery)
      ensures observations == if r.Ok? then old(observations) + [r.value] else old(observations)
      ensures old(recoveredAt).Some? ==> recoveredAt == old(recoveredAt)
      ensures baselineHealthy == old(baselineHealthy)
    {
      if at.Naive? {
        return Err("observed_at must be timezone-aware");
      }
      var health: Health;
      if baselineHealthy != Some(true) {
        health := if failed || !reading.Finite? then Unknown else if probe.Passes(reading.v) then Passing else Failing;
        consecutivePasses := 0;
      } else if failed || !reading.Finite? {
        health := Unknown;
        consecutivePasses := 0;
      } else if probe.Passes(reading.v) {
        health := Passing;
        if probe.requireFailure && !failureObserved {
          consecutivePasses := 0;
        } else {
          consecutivePasses := consecutivePasses + 1;
          if recoveredAt.None? && consecutivePasses >= probe.requiredPasses {
            recoveredAt := Some(at.t);
          }
        }
      } else {
        health := Failing;
        failureObserved := true;
        consecutivePasses := 0;
      }
      var observation := Observation(at.t, reading, health, Recovery);
      ReflectsStep(probe, observations, observation, baselineHealthy, old(failureObserved), old(consecutivePasses),
                   old(recoveredAt));
      observations := observations + [observation];
      return Ok(observation);
    }

    // The verdict over everything observed so far.
    method Conclude(resolved: bool, negativeControl: bool) returns (v: Verdict)
      requires Valid()
      ensures v.status == VerifiedRecovered <==>
                && !negativeControl && BaselineOf(observations) == Some(Passing)
                && exists k :: Recovers(probe, After(observations), k)
      ensures v.status == NoActionCorrect <==>
                negativeControl && BaselineOf(observations) == Some(Passing) && !SawFailure(After(observations))
      ensures v.status == InvalidScenario <==>
                || BaselineOf(observations) != Some(Passing)
                || (if negativeControl then SawFailure(After(observations))
                    else probe.requireFailure && !SawFailure(After(observations)))
      ensures v.mttr.Some? <==> v.status == VerifiedRecovered
      ensures v.mttr.Some? ==> FirstRecoveredAt(probe, After(observations), startedAt + v.mttr.value)
      ensures v.falseResolved <==> resolved && v.status != VerifiedRecovered && v.status != NoActionCorrect
    {
      FieldsMean(probe, observations, baselineHealthy, failureObserved, consecutivePasses, recoveredAt);
      var status, mttr: Option<int> := Unresolved, None;
      if baselineHealthy != Some(true) {
        status := InvalidScenario;
      } else if negativeControl {
        status := if failureObserved then InvalidScenario else NoActionCorrect;
      } else if recoveredAt.Some? {
        status, mttr := VerifiedRecovered, Some(recoveredAt.value - startedAt);
      } else if probe.requireFailure && !failureObserved {
        status := InvalidScenario;
      }
      return Verdict(status, mttr, resolved && status != VerifiedRecovered && status != NoActionCorrect);
    }
  }

  lemma {:induction false} BaselineIff(log: seq<Observation>)
    ensures BaselineOf(log).Some? <==> exists i :: 0 <= i < |log| && log[i].phase == Baseline
  {
    if log != [] {
      var init := log[..|log| - 1];
      BaselineIff(init);
      assert forall i :: 0 <= i < |init| ==> log[i] == init[i];
    }
  }

  // ----- What the fields mean

  // The first observation that completes a recovery.
  ghost predicate FirstAt(probe: Probe, h: seq<Observation>, k: int)
    requires probe.Valid()
  {
    0 <= k < |h| && Recovers(probe, h, k) && forall j :: j < k ==> !Recovers(probe, h, j)
  }

  // The first observation that completes a recovery was made then.
  ghost predicate FirstRecoveredAt(probe: Probe, h: seq<Observation>, at: int)
    requires probe.Valid()
  {
    exists k :: FirstAt(probe, h, k) && h[k].at == at
  }

  // What the tracker's fields say of its log.
  lemma FieldsMean(probe: Probe, log: seq<Observation>, baselineHealthy: Option<bool>,
                   failureObserved: bool, consecutivePasses: int, recoveredAt: Option<int>)
    requires probe.Valid() && Reflects(probe, log, baselineHealthy, failureObserved, consecutivePasses, recoveredAt)
    ensures baselineHealthy == Some(true) <==> BaselineOf(log) == Some(Passing)
    ensures baselineHealthy == Some(true) ==> (failureObserved <==> SawFailure(After(log)))
    ensures recoveredAt.Some? <==> BaselineOf(log) == Some(Passing) && exists k :: Recovers(probe, After(log), k)
    ensures recoveredAt.Some? ==> FirstRecoveredAt(probe, After(log), recoveredAt.value)
    ensures recoveredAt.Some? && probe.requireFailure ==> SawFailure(After(log))
  {
    var h := After(log);
    FirstRecoveryMeans(probe, h);
    if recoveredAt.Some? {
      var k :| FirstAt(probe, h, k) && h[k].at == recoveredAt.value;
      assert Recovers(probe, h, k);
    }
  }

  lemma {:induction false} SuffixMeans(h: seq<Observation>, n: nat)
    requires n <= |h|
    ensures PassingSuffix(h) >= n <==> forall i :: |h| - n <= i < |h| ==> h[i].health == Passing
  {
    if n > 0 {
      SuffixMeans(h[..|h| - 1], n - 1);
    }
  }

  // The counter reaches the required number at exactly the observations that complete a recovery.
  lemma StreakMeans(probe: Probe, h: seq<Observation>)
    requires probe.Valid() && h != []
    ensures Streak(probe, h) >= probe.requiredPasses <==> Recovers(probe, h, |h| - 1)
  {
    var n := probe.requiredPasses;
    if n <= |h| {
      SuffixMeans(h, n);
    }
  }

  lemma RecoversPrefix(probe: Probe, h: seq<Observation>, m: nat, k: int)
    requires probe.Valid() && m <= |h| && k < m
    ensures Recovers(probe, h[..m], k) <==> Recovers(probe, h, k)
  {}

  // The recovery time is that of the first observation completing a recovery; there is none
  // when no observation does.
  lemma {:induction false} FirstRecoveryMeans(probe: Probe, h: seq<Observation>)
    requires probe.Valid()
    ensures FirstRecovery(probe, h).Some? ==>
            exists k :: FirstAt(probe, h, k) && h[k].at == FirstRecovery(probe, h).value
    ensures FirstRecovery(probe, h).None? ==> forall k :: !Recovers(probe, h, k)
  {
    if h != [] {
      var m := |h| - 1;
      FirstRecoveryMeans(probe, h[..m]);
      StreakMeans(probe, h);
      forall k | k < m ensures Recovers(probe, h[..m], k) <==> Recovers(probe, h, k) {
        RecoversPrefix(probe, h, m, k);
      }
      if FirstRecovery(probe, h[..m]).Some? {
        var k :| FirstAt(probe, h[..m], k) && h[..m][k].at == FirstRecovery(probe, h[..m]).value;
        assert FirstAt(probe, h, k);
      } else if FirstRecovery(probe, h).Some? {
        assert FirstAt(probe, h, m);
      }
    }
  }

  // ----- What the probe and the log say

  // The five comparisons agree with each other and with the threshold.
  lemma OperatorLaws(p: Probe, v: real)
    ensures p.(operator := Lt).Passes(v) <==> !p.(operator := Gte).Passes(v)
    ensures p.(operator := Gt).Passes(v) <==> !p.(operator := Lte).Passes(v)
    ensures p.(operator := Eq).Passes(v) <==> p.(operator := Lte).Passes(v) && p.(operator := Gte).Passes(v)
    ensures p.(operator := Lt).Passes(v) ==> p.(operator := Lte).Passes(v)
    ensures v < p.threshold ==> p.(operator := Lt).Passes(v)
    ensures v == p.threshold ==> p.(operator := Eq).Passes(v)
    ensures v > p.threshold ==> p.(operator := Gt).Passes(v)
  {}

  // A failed query, or one without a finite value, is neither a pass nor a failure.
  lemma ClassifyMeans(p: Probe, reading: Reading, failed: bool)
    ensures p.Classify(reading, failed) == Unknown <==> failed || reading == Missing || reading == NotFinite
    ensures p.Classify(reading, failed) == Passing <==> !failed && reading.Finite? && p.Passes(reading.v)
  {}

  // The baseline is the one baseline observation, and the history what follows it.
  lemma {:induction false} AfterMeans(before: seq<Observation>, b: Observation, after: seq<Observation>)
    requires b.phase == Baseline && forall i :: 0 <= i < |after| ==> after[i].phase == Recovery
    ensures BaselineOf(before + [b] + after) == Some(b.health)
    ensures After(before + [b] + after) == after
    decreases |after|
  {
    var log := before + [b] + after;
    if after == [] {
      assert log[|log| - 1] == b;
    } else {
      var n := |after| - 1;
      AfterMeans(before, b, after[..n]);
      assert log[..|log| - 1] == before + [b] + after[..n];
    }
  }
}

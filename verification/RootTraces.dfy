/**
 Matching the trials of a release bundle against its root-trace records
 (evals/benchmarks/release_evidence.py).
 */
module RootTraces {
  import opened Results
  import opened Trials

  datatype Trace = Trace(
    rootTraceId: string,
    experimentId: string,
    pairId: string,
    candidateId: string,
    configFingerprint: string,
    spans: int,
    complete: bool,
    recordsSha256: Option<string>,
    artifactPath: Option<string>,
    costUsd: Option<real>)

  datatype Reason =
    | NoEvidence(pairId: string, candidateId: string)
    | NotInEvidence(pairId: string, candidateId: string)
    | SpanCountDisagrees(pairId: string, candidateId: string)
    | ArtifactDisagrees(pairId: string, candidateId: string)
    | BelongsElsewhere(rootTraceId: string)
    | CostDisagrees(pairId: string, candidateId: string)
    | CompletenessDisagrees(pairId: string, candidateId: string)
    | Unclaimed(count: int)

  // Equality up to the rounding of the stored numbers.
  predicate Close(left: Option<real>, right: Option<real>) {
    match (left, right)
    case (Some(a), Some(b)) => -0.000000001 <= a - b <= 0.000000001
    case _ => left == right
  }

  predicate SameIdentity(record: Trace, trial: Trial) {
    && record.pairId == trial.pairId
    && record.candidateId == trial.candidateId
    && record.configFingerprint == trial.configFingerprint
    && record.experimentId == trial.experimentId
  }

  ghost predicate Agree(record: Trace, trial: Trial) {
    && record.spans == trial.traceSpanCount
    && record.artifactPath == trial.traceEvidenceArtifact
    && OwnTrace(record, trial)
    && CostsAgree(record, trial)
    && record.complete == trial.traceComplete
  }

  ghost predicate OwnTrace(record: Trace, trial: Trial) {
    && record.experimentId == trial.experimentId && record.pairId == trial.pairId
    && record.candidateId == trial.candidateId && record.configFingerprint == trial.configFingerprint
  }

  // Both costs are missing, or they differ by no more than the tolerance.
  ghost predicate CostsAgree(record: Trace, trial: Trial) {
    || (record.costUsd.None? && trial.costUsd.None?)
    || (record.costUsd.Some? && trial.costUsd.Some?
        && -0.000000001 <= record.costUsd.value - trial.costUsd.value <= 0.000000001)
  }

  // The trial gives this very reason.
  ghost predicate Raised(x: Reason, trial: Trial, index: map<string, Trace>) {
    var cited, pair, arm := trial.traceEvidenceSha256, trial.pairId, trial.candidateId;
    if cited.None? then x == NoEvidence(pair, arm)
    else if cited.value !in index then x == NotInEvidence(pair, arm)
    else
      var record := index[cited.value];
      || (x == SpanCountDisagrees(pair, arm) && record.spans != trial.traceSpanCount)
      || (x == ArtifactDisagrees(pair, arm) && record.artifactPath != trial.traceEvidenceArtifact)
      || (x == BelongsElsewhere(record.rootTraceId) && !OwnTrace(record, trial))
      || (x == CostDisagrees(pair, arm) && !CostsAgree(record, trial))
      || (x == CompletenessDisagrees(pair, arm) && record.complete != trial.traceComplete)
  }

  // The digest index: a later record with the same digest replaces an earlier one.
  function ByDigest(traces: seq<Trace>): map<string, Trace> {
    if traces == [] then map[]
    else
      var last, earlier := traces[|traces| - 1], ByDigest(traces[..|traces| - 1]);
      if last.recordsSha256.Some? then earlier[last.recordsSha256.value := last] else earlier
  }

  function PairedTrials(trials: seq<Trial>, baselineId: string, candidateId: string): seq<Trial> {
    if trials == [] then []
    else
      var last, earlier := trials[|trials| - 1], PairedTrials(trials[..|trials| - 1], baselineId, candidateId);
      if last.candidateId in {baselineId, candidateId} then earlier + [last] else earlier
  }

  // The digests that some trial cites and the index holds.
  function Claimed(paired: seq<Trial>, index: map<string, Trace>): set<string> {
    set i | 0 <= i < |paired| && paired[i].traceEvidenceSha256.Some? && paired[i].traceEvidenceSha256.value in index
      :: paired[i].traceEvidenceSha256.value
  }

  // One trial raises no reason.
  ghost predicate Resolves(trial: Trial, index: map<string, Trace>) {
    && trial.traceEvidenceSha256.Some?
    && trial.traceEvidenceSha256.value in index
    && Agree(index[trial.traceEvidenceSha256.value], trial)
  }

  ghost predicate Clean(traces: seq<Trace>, paired: seq<Trial>) {
    && (forall i :: 0 <= i < |paired| ==> Resolves(paired[i], ByDigest(traces)))
    && |Claimed(paired, ByDigest(traces))| >= |traces|
  }

  // ----- The check

  method TrialReasons(trial: Trial, index: map<string, Trace>) returns (reasons: seq<Reason>)
    ensures reasons == [] <==> Resolves(trial, index)
    ensures forall x :: x in reasons <==> Raised(x, trial, index)
  {
    reasons := [];
    var pair, arm := trial.pairId, trial.candidateId;
    if trial.traceEvidenceSha256.None? {
      return [NoEvidence(pair, arm)];
    }
    if trial.traceEvidenceSha256.value !in index {
      return [NotInEvidence(pair, arm)];
    }
    var record := index[trial.traceEvidenceSha256.value];
    if record.spans != trial.traceSpanCount { reasons := reasons + [SpanCountDisagrees(pair, arm)]; }
    if record.artifactPath != trial.traceEvidenceArtifact { reasons := reasons + [ArtifactDisagrees(pair, arm)]; }
    if !SameIdentity(record, trial) { reasons := reasons + [BelongsElsewhere(record.rootTraceId)]; }
    if !Close(record.costUsd, trial.costUsd) { reasons := reasons + [CostDisagrees(pair, arm)]; }
    if record.complete != trial.traceComplete { reasons := reasons + [CompletenessDisagrees(pair, arm)]; }
  }

  // `list(dict.fromkeys(reasons))`: first occurrences, in order.
  method FirstOccurrences(reasons: seq<Reason>) returns (unique: seq<Reason>)
    ensures forall x :: x in unique <==> x in reasons
    ensures forall i, j :: 0 <= i < j < |unique| ==> unique[i] != unique[j]
  {
    unique := [];
    for i := 0 to |reasons|
      invariant forall x :: x in unique <==> x in reasons[..i]
      invariant forall a, b :: 0 <= a < b < |unique| ==> unique[a] != unique[b]
    {
      if reasons[i] !in unique {
        unique := unique + [reasons[i]];
      }
    }
  }

  // Some paired trial gives the reason, or it is the count of the traces nobody claims.
  ghost predicate Reported(x: Reason, traces: seq<Trace>, paired: seq<Trial>) {
    var index := ByDigest(traces);
    var unclaimed := |traces| - |Claimed(paired, index)|;
    (exists i :: 0 <= i < |paired| && Raised(x, paired[i], index)) || (unclaimed > 0 && x == Unclaimed(unclaimed))
  }

  method VerifyRootTraces(traces: seq<Trace>, trials: seq<Trial>, baselineId: string, candidateId: string)
    returns (result: seq<Reason>)
    ensures result == [] <==> Clean(traces, PairedTrials(trials, baselineId, candidateId))
    ensures forall i, j :: 0 <= i < j < |result| ==> result[i] != result[j]
    ensures forall x :: x in result <==> Reported(x, traces, PairedTrials(trials, baselineId, candidateId))
  {
    var index: map<string, Trace> := map[];
    for i := 0 to |traces|
      invariant index == ByDigest(traces[..i])
    {
      assert traces[..i + 1][..i] == traces[..i];
      if traces[i].recordsSha256.Some? {
        index := index[traces[i].recordsSha256.value := traces[i]];
      }
    }
    assert traces[..|traces|] == traces;
    var paired := PairedTrials(trials, baselineId, candidateId);
    var reasons: seq<Reason> := [];
    for i := 0 to |paired|
      invariant reasons == [] <==> forall j :: 0 <= j < i ==> Resolves(paired[j], index)
      invariant forall x :: x in reasons <==> exists j :: 0 <= j < i && Raised(x, paired[j], index)
    {
      var found := TrialReasons(paired[i], index);
      reasons := reasons + found;
    }
    var unclaimed := |traces| - |Claimed(paired, index)|;
    if unclaimed > 0 {
      reasons := reasons + [Unclaimed(unclaimed)];
    }
    result := FirstOccurrences(reasons);
    assert reasons != [] ==> reasons[0] in result;
    assert result != [] ==> result[0] in reasons;
  }

  // ----- What an empty list means

  ghost predicate DistinctDigests(traces: seq<Trace>) {
    && (forall i :: 0 <= i < |traces| ==> traces[i].recordsSha256.Some?)
    && (forall i, j :: 0 <= i < j < |traces| ==> traces[i].recordsSha256 != traces[j].recordsSha256)
  }

  // `f` sends trial i to trace f[i], one to one and onto, each pair agreeing on everything.
  ghost predicate Matching(traces: seq<Trace>, paired: seq<Trial>, f: seq<nat>) {
    && |f| == |paired| == |traces|
    && (forall i :: 0 <= i < |f| ==> f[i] < |traces|)
    && (forall i, j :: 0 <= i < j < |f| ==> f[i] != f[j])
    && (forall k :: 0 <= k < |traces| ==> k in f)
    && (forall i :: 0 <= i < |f| ==> Cites(paired[i], traces[f[i]]))
  }

  ghost predicate Cites(trial: Trial, trace: Trace) {
    trace.recordsSha256.Some? && trial.traceEvidenceSha256 == trace.recordsSha256 && Agree(trace, trial)
  }

  lemma {:induction false} IndexSound(traces: seq<Trace>, d: string)
    requires d in ByDigest(traces)
    ensures exists i :: 0 <= i < |traces| && traces[i] == ByDigest(traces)[d] && traces[i].recordsSha256 == Some(d)
  {
    var n := |traces| - 1;
    if traces[n].recordsSha256 != Some(d) {
      IndexSound(traces[..n], d);
      var i :| 0 <= i < n && traces[..n][i] == ByDigest(traces[..n])[d] && traces[..n][i].recordsSha256 == Some(d);
      assert traces[i] == ByDigest(traces)[d];
    }
  }

  lemma {:induction false} IndexComplete(traces: seq<Trace>, i: nat)
    requires i < |traces| && traces[i].recordsSha256.Some?
    ensures traces[i].recordsSha256.value in ByDigest(traces)
  {
    if i < |traces| - 1 {
      IndexComplete(traces[..|traces| - 1], i);
    }
  }

  // Pigeonhole: an index as large as the list means every record has a digest of its own.
  lemma {:induction false} FullIndex(traces: seq<Trace>)
    ensures |ByDigest(traces).Keys| <= |traces|
    ensures |ByDigest(traces).Keys| == |traces| ==> DistinctDigests(traces)
  {
    if traces != [] {
      var n := |traces| - 1;
      var last, rest := traces[n], traces[..n];
      FullIndex(rest);
      var keys := ByDigest(rest).Keys;
      if last.recordsSha256.Some? {
        assert ByDigest(traces).Keys == keys + {last.recordsSha256.value};
        forall i | 0 <= i < n && last.recordsSha256.value !in keys && rest[i].recordsSha256.Some?
          ensures traces[i].recordsSha256 != last.recordsSha256
        {
          IndexComplete(rest, i);
          assert traces[i] == rest[i];
        }
        assert last.recordsSha256.value in keys ==> ByDigest(traces).Keys == keys;
      }
      assert forall i :: 0 <= i < n ==> traces[i] == rest[i];
    }
  }

  lemma {:induction false} DistinctFillIndex(traces: seq<Trace>)
    requires DistinctDigests(traces)
    ensures |ByDigest(traces).Keys| == |traces|
  {
    if traces != [] {
      var n := |traces| - 1;
      DistinctFillIndex(traces[..n]);
      var d := traces[n].recordsSha256.value;
      if d in ByDigest(traces[..n]) {
        IndexSound(traces[..n], d);
        assert false;
      }
      assert ByDigest(traces).Keys == ByDigest(traces[..n]).Keys + {d};
    }
  }

  lemma SubsetOfSize(a: set<string>, b: set<string>)
    requires a <= b && |a| >= |b|
    ensures a == b
    decreases b
  {
    if b != {} {
      assert a != {};
      var x :| x in a;
      SubsetOfSize(a - {x}, b - {x});
      assert a == (a - {x}) + {x} && b == (b - {x}) + {x};
    }
  }

  ghost function Position(traces: seq<Trace>, d: string): (i: nat)
    requires d in ByDigest(traces)
    ensures i < |traces| && traces[i] == ByDigest(traces)[d] && traces[i].recordsSha256 == Some(d)
  {
    IndexSound(traces, d);
    var i :| 0 <= i < |traces| && traces[i] == ByDigest(traces)[d] && traces[i].recordsSha256 == Some(d);
    i
  }

  // Digest collisions and unclaimed traces are ruled out by counting alone.
  lemma CleanCounts(traces: seq<Trace>, paired: seq<Trial>)
    requires Clean(traces, paired)
    ensures DistinctDigests(traces)
    ensures Claimed(paired, ByDigest(traces)) == ByDigest(traces).Keys
  {
    var index := ByDigest(traces);
    FullIndex(traces);
    SubsetOfSize(Claimed(paired, index), index.Keys);
  }

  // The trace each trial of a clean bundle resolves to.
  ghost function Assignment(traces: seq<Trace>, paired: seq<Trial>): (f: seq<nat>)
    requires Clean(traces, paired)
    ensures |f| == |paired|
    ensures forall i :: 0 <= i < |f| ==> f[i] < |traces| && Cites(paired[i], traces[f[i]])
  {
    assert forall i :: 0 <= i < |paired| ==> Resolves(paired[i], ByDigest(traces));
    seq(|paired|, i requires 0 <= i < |paired| => Position(traces, paired[i].traceEvidenceSha256.value))
  }

  // Each trial's trace is its own: two trials citing one trace would share an identity.
  lemma AssignmentInjective(traces: seq<Trace>, paired: seq<Trial>)
    requires Clean(traces, paired) && DistinctIdentities(paired)
    ensures Injective(Assignment(traces, paired))
  {
    var f := Assignment(traces, paired);
    forall i, j | 0 <= i < j < |f| ensures f[i] != f[j] {
      assert Cites(paired[i], traces[f[i]]) && Cites(paired[j], traces[f[j]]);
      assert paired[i].Identity() != paired[j].Identity();
    }
  }

  lemma AssignmentOnto(traces: seq<Trace>, paired: seq<Trial>, k: nat)
    requires Clean(traces, paired) && k < |traces|
    ensures k in Assignment(traces, paired)
  {
    CleanCounts(traces, paired);
    IndexComplete(traces, k);
    assert traces[k].recordsSha256.value in Claimed(paired, ByDigest(traces));
    var i :| 0 <= i < |paired| && paired[i].traceEvidenceSha256 == traces[k].recordsSha256;
    var f := Assignment(traces, paired);
    assert Cites(paired[i], traces[f[i]]);
    assert f[i] == k;
  }

  lemma CleanMatches(traces: seq<Trace>, paired: seq<Trial>)
    requires Clean(traces, paired) && DistinctIdentities(paired)
    ensures Matching(traces, paired, Assignment(traces, paired))
  {
    var f := Assignment(traces, paired);
    AssignmentInjective(traces, paired);
    forall k | 0 <= k < |traces| ensures k in f {
      AssignmentOnto(traces, paired, k);
    }
    InjectiveOnto(f, |traces|);
  }

  ghost predicate Injective(f: seq<nat>) { forall i, j :: 0 <= i < j < |f| ==> f[i] != f[j] }

  // A list without repetition that hits exactly 0..n-1 has length n.
  lemma {:induction false} InjectiveOnto(f: seq<nat>, n: nat)
    requires Injective(f)
    requires forall i :: 0 <= i < |f| ==> f[i] < n
    requires forall k :: 0 <= k < n ==> k in f
    ensures |f| == n
  {
    assert Values(f) == Range(n);
    ValuesSize(f);
  }

  ghost function Values(f: seq<nat>): (r: set<nat>)
    ensures forall x :: x in r <==> x in f
  {
    if f == [] then {} else Values(f[..|f| - 1]) + {f[|f| - 1]}
  }

  ghost function Range(n: nat): (r: set<nat>)
    ensures |r| == n && forall k: nat :: k in r <==> k < n
  {
    if n == 0 then {} else Range(n - 1) + {n - 1}
  }

  lemma {:induction false} ValuesSize(f: seq<nat>)
    requires Injective(f)
    ensures |Values(f)| == |f|
  {
    if f != [] {
      ValuesSize(f[..|f| - 1]);
    }
  }

  lemma MatchingIsClean(traces: seq<Trace>, paired: seq<Trial>, f: seq<nat>)
    requires DistinctDigests(traces) && Matching(traces, paired, f)
    ensures Clean(traces, paired)
  {
    var index := ByDigest(traces);
    forall i | 0 <= i < |paired| ensures Resolves(paired[i], index) {
      assert Cites(paired[i], traces[f[i]]);
      IndexComplete(traces, f[i]);
      assert Position(traces, traces[f[i]].recordsSha256.value) == f[i];
    }
    DistinctFillIndex(traces);
    forall d | d in index ensures d in Claimed(paired, index) {
      var k := Position(traces, d);
      assert k in f;
      var i :| 0 <= i < |f| && f[i] == k;
      assert Cites(paired[i], traces[f[i]]);
    }
    assert Claimed(paired, index) == index.Keys;
  }

  lemma {:induction false} PairedDistinct(trials: seq<Trial>, baselineId: string, candidateId: string)
    requires DistinctIdentities(trials)
    ensures var paired := PairedTrials(trials, baselineId, candidateId);
            DistinctIdentities(paired) && forall t :: t in paired ==> t in trials
  {
    if trials != [] {
      var n := |trials| - 1;
      PairedDistinct(trials[..n], baselineId, candidateId);
      forall t | t in trials[..n] ensures t.Identity() != trials[n].Identity() && t in trials {
        var i :| 0 <= i < n && trials[..n][i] == t;
        assert trials[i] == t;
      }
      var earlier := PairedTrials(trials[..n], baselineId, candidateId);
      assert forall i :: 0 <= i < |earlier| ==> earlier[i] in trials[..n];
    }
  }

  // The check returns no reason if and only if the digests are pairwise distinct and the paired
  // trials correspond one to one with the trace records, each pair agreeing.
  lemma EmptyMeansBijection(traces: seq<Trace>, trials: seq<Trial>, baselineId: string, candidateId: string)
    requires DistinctIdentities(trials)
    ensures var paired := PairedTrials(trials, baselineId, candidateId);
            Clean(traces, paired) <==> DistinctDigests(traces) && exists f :: Matching(traces, paired, f)
  {
    var paired := PairedTrials(trials, baselineId, candidateId);
    PairedDistinct(trials, baselineId, candidateId);
    if Clean(traces, paired) {
      CleanCounts(traces, paired);
      CleanMatches(traces, paired);
    }
    if DistinctDigests(traces) && exists f :: Matching(traces, paired, f) {
      var f :| Matching(traces, paired, f);
      MatchingIsClean(traces, paired, f);
    }
  }

  // The paired trials are exactly the trials of either arm, each as often as it was loaded.
  lemma {:induction false} PairedExactly(trials: seq<Trial>, baselineId: string, candidateId: string, t: Trial)
    ensures multiset(PairedTrials(trials, baselineId, candidateId))[t] ==
            if t.candidateId == baselineId || t.candidateId == candidateId then multiset(trials)[t] else 0
  {
    if trials != [] {
      var init, last := trials[..|trials| - 1], trials[|trials| - 1];
      PairedExactly(init, baselineId, candidateId, t);
      assert trials == init + [last];
    }
  }
}

/**
 The benchmark's poll loop: independent recovery evidence, bounded approvals, and the grace
 period on a terminal status (evals/benchmarks/sre_bench.py).
 */
module PollLoop {
  import opened Results
  import opened Text
  import opened RecoveryOracle

  const POLL_INTERVAL_SEC := 5

  const TERMINAL_STATUSES: set<string> :=
    {"investigated", "awaiting_approval", "pending_acknowledgment", "remediation_failed", "verification_unknown",
     "resolved"}

  datatype Settings = Settings(timeout: int, grace: int, autoApprove: bool, approveLimit: int)

  // What GET /status shows, if it can be read.
  datatype Approval = Unreadable | NotPending | Pending(requestId: string, actionHash: string)

  // Fetching the incident raises, does not find it, or shows its status.
  datatype Fetch = Raises | NotListed | Shows(status: string)

  // One poll's worth of environment: the oracle query, the incident fetch, the pending approval,
  // and whether POST /approve is accepted.
  datatype Poll = Poll(reading: Reading, failed: bool, at: int, fetch: Fetch, approval: Approval, accepted: bool)

  // What a poll came to: the status it went by and the approval it granted, if any.
  datatype Entry = Entry(status: string, granted: Option<string>)

  // How the loop ends; `Escaped` is the exception of a fetch, which nothing in the loop catches.
  datatype Exit = Recovered | GraceOver | TimedOut | Escaped

  // The last status fetched by the first n polls.
  function LatestStatus(env: nat -> Poll, initial: string, n: nat): string {
    if n == 0 then initial
    else match env(n - 1).fetch
      case Shows(s) => s
      case _ => LatestStatus(env, initial, n - 1)
  }

  predicate Terminal(status: string) { status in TERMINAL_STATUSES }

  // Approves the pending action, unless it cannot be read, is malformed, was already granted, or
  // is refused.
  method GrantPendingApproval(poll: Poll, granted: set<string>) returns (now: set<string>, hash: Option<string>)
    ensures hash.Some? <==> && poll.approval.Pending? && poll.approval.requestId != "" && poll.approval.actionHash != ""
                            && poll.approval.actionHash !in granted && poll.accepted
    ensures hash.Some? ==> hash.value == poll.approval.actionHash && now == granted + {hash.value}
    ensures hash.None? ==> now == granted
  {
    match poll.approval
    case Unreadable => return granted, None;
    case NotPending => return granted, None;
    case Pending(requestId, actionHash) =>
      if requestId == "" || actionHash == "" {
        return granted, None;
      }
      if actionHash in granted {
        return granted, None;
      }
      if !poll.accepted {
        return granted, None;
      }
      return granted + {actionHash}, Some(actionHash);
  }

  // The hash a poll grants, given those granted before.
  function Granting(settings: Settings, status: string, poll: Poll, granted: set<string>): Option<string> {
    if settings.autoApprove && status == "awaiting_approval" && |granted| < settings.approveLimit
       && poll.approval.Pending? && poll.approval.requestId != "" && poll.approval.actionHash != ""
       && poll.approval.actionHash !in granted && poll.accepted
    then Some(poll.approval.actionHash)
    else None
  }

  // The harness approves only when told to, on a waiting incident, and below its limit.
  method MaybeApprove(settings: Settings, status: string, poll: Poll, granted: set<string>)
    returns (now: set<string>, hash: Option<string>)
    ensures hash == Granting(settings, status, poll, granted)
    ensures now == if hash.Some? then granted + {hash.value} else granted
  {
    if settings.autoApprove && status == "awaiting_approval" && |granted| < settings.approveLimit {
      now, hash := GrantPendingApproval(poll, granted);
    } else {
      now, hash := granted, None;
    }
  }

  // ----- What a trace says

  // The hashes granted over a trace.
  function GrantedBy(trace: seq<Entry>): set<string> {
    if trace == [] then {}
    else
      var earlier, last := GrantedBy(trace[..|trace| - 1]), trace[|trace| - 1];
      if last.granted.Some? then earlier + {last.granted.value} else earlier
  }

  // Every poll granted exactly what the rule allows.
  ghost predicate Ruled(trace: seq<Entry>, env: nat -> Poll, settings: Settings) {
    trace == []
    || var init, last := trace[..|trace| - 1], trace[|trace| - 1];
       Ruled(init, env, settings) && last.granted == Granting(settings, last.status, env(|init|), GrantedBy(init))
  }

  ghost predicate StatusesAre(trace: seq<Entry>, env: nat -> Poll, initial: string) {
    forall i :: 0 <= i < |trace| ==> trace[i].status == Lower(LatestStatus(env, initial, i + 1))
  }

  lemma GrantedByStep(trace: seq<Entry>, entry: Entry)
    ensures GrantedBy(trace + [entry]) == if entry.granted.Some? then GrantedBy(trace) + {entry.granted.value}
            else GrantedBy(trace)
  {
    assert (trace + [entry])[..|trace|] == trace;
  }

  lemma RuledStep(trace: seq<Entry>, env: nat -> Poll, settings: Settings, entry: Entry)
    ensures Ruled(trace + [entry], env, settings) <==>
            Ruled(trace, env, settings)
              && entry.granted == Granting(settings, entry.status, env(|trace|), GrantedBy(trace))
  {
    assert (trace + [entry])[..|trace|] == trace;
  }

  // Grants by the rule number no more than the limit.
  lemma {:induction false} GrantsBounded(trace: seq<Entry>, env: nat -> Poll, settings: Settings)
    requires Ruled(trace, env, settings)
    ensures GrantedBy(trace) == {} || (settings.autoApprove && |GrantedBy(trace)| <= settings.approveLimit)
  {
    if trace != [] {
      GrantsBounded(trace[..|trace| - 1], env, settings);
    }
  }

  // Grants by the rule never repeat a hash.
  lemma {:induction false} GrantsDistinct(trace: seq<Entry>, env: nat -> Poll, settings: Settings, i: nat, j: nat)
    requires Ruled(trace, env, settings) && i < j < |trace| && trace[i].granted.Some?
    ensures trace[i].granted != trace[j].granted
  {
    var init := trace[..|trace| - 1];
    if j < |init| {
      GrantsDistinct(init, env, settings, i, j);
    } else {
      GrantedEarlier(init, i);
    }
  }

  lemma {:induction false} GrantedEarlier(trace: seq<Entry>, i: nat)
    requires i < |trace| && trace[i].granted.Some?
    ensures trace[i].granted.value in GrantedBy(trace)
  {
    if i < |trace| - 1 {
      GrantedEarlier(trace[..|trace| - 1], i);
    }
  }

  // ----- The grace period

  // From poll i on, every poll went by a terminal status and granted nothing.
  ghost predicate IdleSince(trace: seq<Entry>, i: int) {
    0 <= i < |trace| && forall j :: i <= j < |trace| ==> Terminal(trace[j].status) && trace[j].granted.None?
  }

  lemma IdleStep(trace: seq<Entry>, i: int, entry: Entry)
    ensures IdleSince(trace + [entry], i) <==>
            (IdleSince(trace, i) || i == |trace|) && Terminal(entry.status) && entry.granted.None?
  {
    var more := trace + [entry];
    assert more[|trace|] == entry;
    assert forall j :: 0 <= j < |trace| ==> more[j] == trace[j];
  }

  // `terminalSeenAt` is the elapsed time of the poll since which the loop has been idle, and
  // absent when the last poll was not.
  ghost predicate Counting(trace: seq<Entry>, terminalSeenAt: Option<int>) {
    match terminalSeenAt
    case None => forall i :: !IdleSince(trace, i)
    case Some(at) => exists i :: CountsFrom(trace, i) && at == (i + 1) * POLL_INTERVAL_SEC
  }

  ghost predicate CountsFrom(trace: seq<Entry>, i: int) {
    IdleSince(trace, i) && forall j :: j < i ==> !IdleSince(trace, j)
  }

  // Idle for at least the grace period, over at least two polls.
  ghost predicate IdleFor(trace: seq<Entry>, grace: int) {
    exists i :: IdleSince(trace, i) && i < |trace| - 1 && (|trace| - 1 - i) * POLL_INTERVAL_SEC >= grace
  }

  // The bookkeeping of the grace period for a poll that granted nothing.
  method CountGrace(ghost earlier: seq<Entry>, status: string, seenAt: Option<int>, elapsed: int, grace: int)
    returns (terminalSeenAt: Option<int>, over: bool)
    requires elapsed == (|earlier| + 1) * POLL_INTERVAL_SEC && Counting(earlier, seenAt)
    ensures Counting(earlier + [Entry(status, None)], terminalSeenAt)
    ensures over <==> IdleFor(earlier + [Entry(status, None)], grace)
  {
    ghost var trace := earlier + [Entry(status, None)];
    forall i ensures IdleSince(trace, i) <==> (IdleSince(earlier, i) || i == |earlier|) && Terminal(status) {
      IdleStep(earlier, i, Entry(status, None));
    }
    if !Terminal(status) {
      return None, false;
    }
    if seenAt.None? {
      assert CountsFrom(trace, |earlier|);
      return Some(elapsed), false;
    }
    ghost var i :| CountsFrom(earlier, i) && seenAt.value == (i + 1) * POLL_INTERVAL_SEC;
    assert CountsFrom(trace, i);
    terminalSeenAt, over := seenAt, elapsed - seenAt.value >= grace;
    assert over ==> IdleSince(trace, i) && i < |trace| - 1 && (|trace| - 1 - i) * POLL_INTERVAL_SEC >= grace;
    forall j | IdleSince(trace, j) && j < |trace| - 1 && (|trace| - 1 - j) * POLL_INTERVAL_SEC >= grace ensures over {
      assert i <= j;
    }
  }

  // ----- The oracle

  // The observations of the first n polls.
  function Watched(env: nat -> Poll, probe: Probe, n: nat): seq<Observation> {
    seq(n,
        i requires 0 <= i < n => Observation(env(i).at, env(i).reading, probe.Classify(env(i).reading, env(i).failed),
                                             Recovery))
  }

  // After a healthy baseline, a failure was seen and a recovery completed.
  ghost predicate Done(probe: Probe, log: seq<Observation>)
    requires probe.Valid()
  {
    BaselineOf(log) == Some(Passing) && SawFailure(After(log)) && exists k :: Recovers(probe, After(log), k)
  }

  // One oracle observation, and whether the loop may stop on it.
  method ObserveOracle(poll: Poll, tracker: RecoveryOracleTracker) returns (recovered: bool)
    requires tracker.Valid()
    modifies tracker
    ensures tracker.Valid()
    ensures tracker.observations == old(tracker.observations)
              + [Observation(poll.at, poll.reading, tracker.probe.Classify(poll.reading, poll.failed), Recovery)]
    ensures recovered <==> Done(tracker.probe, tracker.observations)
  {
    var observed := tracker.Observe(poll.reading, poll.failed, Aware(poll.at));
    FirstRecoveryMeans(tracker.probe, After(tracker.observations));
    return tracker.recoveredAt.Some? && tracker.failureObserved;
  }

  // ----- The loop

  // What the loop's variables say about the polls made so far.
  ghost predicate Polled(env: nat -> Poll, initial: string, settings: Settings, trace: seq<Entry>,
                         elapsed: int, latest: string, granted: set<string>)
  {
    && elapsed == |trace| * POLL_INTERVAL_SEC
    && (|trace| > 0 ==> (|trace| - 1) * POLL_INTERVAL_SEC < settings.timeout)
    && latest == LatestStatus(env, initial, |trace|)
    && StatusesAre(trace, env, initial)
    && granted == GrantedBy(trace)
  }

  lemma PolledStep(env: nat -> Poll, initial: string, settings: Settings, trace: seq<Entry>,
                   latest: string, granted: set<string>, hash: Option<string>)
    requires Polled(env, initial, settings, trace, |trace| * POLL_INTERVAL_SEC, latest, granted)
    requires |trace| * POLL_INTERVAL_SEC < settings.timeout
    ensures var now := LatestStatus(env, initial, |trace| + 1);
            Polled(env, initial, settings, trace + [Entry(Lower(now), hash)], (|trace| + 1) * POLL_INTERVAL_SEC, now,
                   if hash.Some? then granted + {hash.value} else granted)
  {
    GrantedByStep(trace, Entry(Lower(LatestStatus(env, initial, |trace| + 1)), hash));
  }

  // No earlier poll met a condition to stop.
  ghost predicate Unstopped(env: nat -> Poll, probe: Probe, log: seq<Observation>, trace: seq<Entry>, grace: int)
    requires probe.Valid()
  {
    forall m :: 0 < m <= |trace| ==> !IdleFor(trace[..m], grace) && !Done(probe, log + Watched(env, probe, m))
  }

  lemma UnstoppedStep(env: nat -> Poll, probe: Probe, log: seq<Observation>, trace: seq<Entry>, grace: int,
                      entry: Entry)
    requires probe.Valid() && Unstopped(env, probe, log, trace, grace)
    requires !IdleFor(trace + [entry], grace) && !Done(probe, log + Watched(env, probe, |trace| + 1))
    ensures Unstopped(env, probe, log, trace + [entry], grace)
  {
    var more := trace + [entry];
    assert more[..|more|] == more;
    forall m | 0 < m <= |trace| ensures more[..m] == trace[..m] {}
  }

  lemma WatchedStep(env: nat -> Poll, probe: Probe, n: nat)
    ensures Watched(env, probe, n + 1)
            == Watched(env, probe, n)
              + [Observation(env(n).at, env(n).reading, probe.Classify(env(n).reading, env(n).failed), Recovery)]
  {}

  // The polls a run made, ending with one that stopped it or with the timeout.
  ghost predicate Finished(env: nat -> Poll, probe: Probe, log: seq<Observation>, trace: seq<Entry>,
                           settings: Settings, exit: Exit)
    requires probe.Valid()
  {
    var n := |trace|;
    && NoneRaises(env, n)
    && match exit
    case Recovered =>
      && n > 0 && Done(probe, log + Watched(env, probe, n)) && trace[n - 1].granted.None?
      && Ruled(trace[..n - 1], env, settings)
      && Unstopped(env, probe, log, trace[..n - 1], settings.grace)
    case GraceOver =>
      && n > 0 && !Done(probe, log + Watched(env, probe, n)) && IdleFor(trace, settings.grace)
      && Ruled(trace, env, settings)
      && Unstopped(env, probe, log, trace[..n - 1], settings.grace)
    case TimedOut =>
      && n * POLL_INTERVAL_SEC >= settings.timeout
      && Ruled(trace, env, settings)
      && Unstopped(env, probe, log, trace, settings.grace)
    case Escaped =>
      && n * POLL_INTERVAL_SEC < settings.timeout && env(n).fetch.Raises?
      && Ruled(trace, env, settings)
      && Unstopped(env, probe, log, trace, settings.grace)
  }

  ghost predicate NoneRaises(env: nat -> Poll, n: nat) { forall k: nat :: k < n ==> !env(k).fetch.Raises? }

  lemma NoneRaisesMore(env: nat -> Poll, n: nat)
    requires NoneRaises(env, n) && !env(n).fetch.Raises?
    ensures NoneRaises(env, n + 1)
  {}

  // A run that stops at the poll after these.
  lemma Stops(env: nat -> Poll, probe: Probe, log: seq<Observation>, earlier: seq<Entry>, settings: Settings,
              entry: Entry, recovered: bool)
    requires probe.Valid() && Ruled(earlier, env, settings) && NoneRaises(env, |earlier| + 1)
    requires Unstopped(env, probe, log, earlier, settings.grace)
    requires recovered <==> Done(probe, log + Watched(env, probe, |earlier| + 1))
    requires if recovered then entry.granted.None?
             else Ruled(earlier + [entry], env, settings) && IdleFor(earlier + [entry], settings.grace)
    ensures Finished(env, probe, log, earlier + [entry], settings, if recovered then Recovered else GraceOver)
  {
    assert (earlier + [entry])[..|earlier|] == earlier;
  }

  // A poll that granted a hash is not idle.
  lemma GrantedNotIdle(earlier: seq<Entry>, entry: Entry)
    requires entry.granted.Some?
    ensures Counting(earlier + [entry], None) && forall grace :: !IdleFor(earlier + [entry], grace)
  {
    forall i ensures !IdleSince(earlier + [entry], i) {
      IdleStep(earlier, i, entry);
    }
  }

  // The oracle half of a poll.
  method Watch(env: nat -> Poll, n: nat, tracker: RecoveryOracleTracker, ghost log: seq<Observation>)
    returns (recovered: bool)
    requires tracker.Valid() && tracker.observations == log + Watched(env, tracker.probe, n)
    modifies tracker
    ensures tracker.Valid() && tracker.observations == log + Watched(env, tracker.probe, n + 1)
    ensures recovered <==> Done(tracker.probe, log + Watched(env, tracker.probe, n + 1))
  {
    WatchedStep(env, tracker.probe, n);
    recovered := ObserveOracle(env(n), tracker);
    assert tracker.observations == log + Watched(env, tracker.probe, n + 1);
  }

  // The incident half of a poll whose fetch did not raise: take the status, approve if allowed.
  method Progress(env: nat -> Poll, n: nat, initial: string, settings: Settings, latest: string, granted: set<string>,
                  recovered: bool, ghost trace: seq<Entry>)
    returns (fetched: string, status: string, now: set<string>, hash: Option<string>)
    requires n == |trace| && n * POLL_INTERVAL_SEC < settings.timeout && !env(n).fetch.Raises?
    requires Polled(env, initial, settings, trace, n * POLL_INTERVAL_SEC, latest, granted)
             && Ruled(trace, env, settings)
    ensures Polled(env, initial, settings, trace + [Entry(status, hash)], (n + 1) * POLL_INTERVAL_SEC, fetched, now)
    ensures if recovered then hash.None? else Ruled(trace + [Entry(status, hash)], env, settings)
  {
    var poll := env(n);
    fetched := if poll.fetch.Shows? then poll.fetch.status else latest;
    status := Lower(fetched);
    now, hash := granted, None;
    if !recovered {
      now, hash := MaybeApprove(settings, status, poll, granted);
    }
    PolledStep(env, initial, settings, trace, latest, granted, hash);
    RuledStep(trace, env, settings, Entry(status, hash));
  }

  // The grace half of a poll on which the loop does not stop for a recovery.
  method Tarry(env: nat -> Poll, settings: Settings, ghost earlier: seq<Entry>, status: string, hash: Option<string>,
               seenAt: Option<int>, elapsed: int, ghost probe: Probe, ghost log: seq<Observation>)
    returns (terminalSeenAt: Option<int>, over: bool)
    requires probe.Valid() && elapsed == (|earlier| + 1) * POLL_INTERVAL_SEC && Counting(earlier, seenAt)
    requires Unstopped(env, probe, log, earlier, settings.grace)
    requires !Done(probe, log + Watched(env, probe, |earlier| + 1))
    ensures Counting(earlier + [Entry(status, hash)], terminalSeenAt)
    ensures over <==> IdleFor(earlier + [Entry(status, hash)], settings.grace)
    ensures !over ==> Unstopped(env, probe, log, earlier + [Entry(status, hash)], settings.grace)
  {
    if hash.Some? {
      GrantedNotIdle(earlier, Entry(status, hash));
      terminalSeenAt, over := None, false;
    } else {
      terminalSeenAt, over := CountGrace(earlier, status, seenAt, elapsed, settings.grace);
    }
    if !over {
      UnstoppedStep(env, probe, log, earlier, settings.grace, Entry(status, hash));
    }
  }

  // The loop stops at the first poll that completes a recovery after a seen failure, ends the
  // grace period or fails to fetch the incident, and at the timeout when there is none; every poll
  // before it granted exactly what the rule allows. An escaping failure loses both results.
  method WaitForRecovery(env: nat -> Poll, initial: string, tracker: RecoveryOracleTracker, settings: Settings)
    returns (latest: string, approvals: nat, exit: Exit, ghost trace: seq<Entry>)
    requires tracker.Valid()
    modifies tracker
    ensures tracker.Valid()
    ensures tracker.observations == old(tracker.observations)
              + Watched(env, tracker.probe, if exit == Escaped then |trace| + 1 else |trace|)
    ensures |trace| > 0 ==> (|trace| - 1) * POLL_INTERVAL_SEC < settings.timeout
    ensures latest == LatestStatus(env, initial, |trace|) && StatusesAre(trace, env, initial)
    ensures approvals == |GrantedBy(trace)|
    ensures Finished(env, tracker.probe, old(tracker.observations), trace, settings, exit)
  {
    var elapsed := 0;
    var terminalSeenAt: Option<int> := None;
    latest := initial;
    var granted: set<string> := {};
    var n: nat := 0;
    trace := [];
    ghost var log := tracker.observations;
    while elapsed < settings.timeout
      invariant tracker.Valid() && tracker.observations == log + Watched(env, tracker.probe, |trace|)
      invariant n == |trace| && Polled(env, initial, settings, trace, elapsed, latest, granted)
      invariant Ruled(trace, env, settings) && NoneRaises(env, n)
      invariant Counting(trace, terminalSeenAt)
      invariant Unstopped(env, tracker.probe, log, trace, settings.grace)
      decreases settings.timeout - elapsed
    {
      elapsed := elapsed + POLL_INTERVAL_SEC;
      var recovered := Watch(env, n, tracker, log);
      if env(n).fetch.Raises? {
        return latest, |granted|, Escaped, trace;
      }
      NoneRaisesMore(env, n);
      ghost var earlier := trace;
      var status, hash;
      latest, status, granted, hash := Progress(env, n, initial, settings, latest, granted, recovered, trace);
      n := n + 1;
      trace := earlier + [Entry(status, hash)];
      if recovered {
        Stops(env, tracker.probe, log, earlier, settings, Entry(status, hash), true);
        return latest, |granted|, Recovered, trace;
      }
      var over;
      terminalSeenAt, over := Tarry(env, settings, earlier, status, hash, terminalSeenAt, elapsed, tracker.probe, log);
      if over {
        Stops(env, tracker.probe, log, earlier, settings, Entry(status, hash), false);
        return latest, |granted|, GraceOver, trace;
      }
    }
    return latest, |granted|, TimedOut, trace;
  }

  // Whatever the environment, a run grants at most the limit, each grant for a hash of its own.
  lemma {:induction false} RunBounds(env: nat -> Poll, probe: Probe, log: seq<Observation>, trace: seq<Entry>,
                                     settings: Settings, exit: Exit)
    requires probe.Valid() && Finished(env, probe, log, trace, settings, exit)
    ensures GrantedBy(trace) == {} || (settings.autoApprove && |GrantedBy(trace)| <= settings.approveLimit)
    ensures forall i, j :: 0 <= i < j < |trace| && trace[i].granted.Some? && trace[j].granted.Some? ==>
              trace[i].granted != trace[j].granted
  {
    if exit == Recovered {
      var init, last := trace[..|trace| - 1], trace[|trace| - 1];
      GrantsBounded(init, env, settings);
      forall i, j | 0 <= i < j < |trace| && trace[i].granted.Some? && trace[j].granted.Some?
        ensures trace[i].granted != trace[j].granted
      {
        GrantsDistinct(init, env, settings, i, j);
      }
    } else {
      GrantsBounded(trace, env, settings);
      forall i, j | 0 <= i < j < |trace| && trace[i].granted.Some? && trace[j].granted.Some?
        ensures trace[i].granted != trace[j].granted
      {
        GrantsDistinct(trace, env, settings, i, j);
      }
    }
  }

  // An early exit for recovery is a verified recovery: the verdict of a trial that is no
  // negative control.
  method JudgeRecovered(env: nat -> Poll, initial: string, tracker: RecoveryOracleTracker, settings: Settings,
                        resolved: bool)
    returns (exit: Exit, verdict: Verdict)
    requires tracker.Valid()
    modifies tracker
    ensures exit == Recovered ==> verdict.status == VerifiedRecovered && !verdict.falseResolved
  {
    var latest, approvals;
    ghost var trace;
    latest, approvals, exit, trace := WaitForRecovery(env, initial, tracker, settings);
    ghost var log := tracker.observations;
    verdict := tracker.Conclude(resolved, false);
    if exit == Recovered {
      assert Done(tracker.probe, log);
      ghost var k :| Recovers(tracker.probe, After(log), k);
      assert tracker.observations == log;
      assert Recovers(tracker.probe, After(tracker.observations), k);
      assert BaselineOf(tracker.observations) == Some(Passing);
      assert exists k :: Recovers(tracker.probe, After(tracker.observations), k);
      assert verdict.status == VerifiedRecovered;
    }
  }
}

/**
 The missed-clear protocol: durable evidence collected over many passes, and the decision what
 a clear does to an incident (src/sre_agent/alert_lifecycle_reconciler.py,
 src/sre_agent/alert_resolution.py, src/sre_agent/api/v1/alerts.py).
 */
module AlertLifecycle {
  import opened Results
  import opened Text
  import opened AlertSource

  datatype Status =
    | Open | Investigating | Investigated | AwaitingApproval | RemediationInProgress
    | RemediationFailed | VerificationUnknown | PendingAcknowledgment | Resolved

  // The statuses of which a pass loads its candidates; the same ones the resolution rules treat as active.
  predicate Candidate(s: Status) { s != PendingAcknowledgment && s != Resolved }

  // The statuses a title lookup treats as active.
  predicate OpenToLookup(s: Status) { s != Resolved }

  // ----- The decision

  datatype Decision = Decision(matched: bool, newStatus: Option<Status>, markResolved: bool, masksFailure: bool,
                               byCrash: bool)

  function Decide(current: Option<Status>, crashed: bool): Decision {
    if current.None? || !Candidate(current.value) then Decision(false, None, false, false, false)
    else if current.value == RemediationFailed then Decision(true, Some(RemediationFailed), false, true, false)
    else if crashed then Decision(true, current, false, false, true)
    else Decision(true, Some(Resolved), true, false, false)
  }

  // ----- One incident

  // A source event on the timeline, in sequence order, with the time the store gave it.
  datatype Kind = AbsenceObserved | FiringObserved | AlertResolved

  datatype Event = Event(kind: Kind, createdAt: int)

  datatype Incident = Incident(
    cluster: string,
    title: string,
    openedAt: int,
    prometheus: bool,
    identity: Option<Identity>,
    status: Status,
    timeline: seq<Event>)

  // The title a resolved alert is looked up by.
  function TitleOf(identity: Identity): string { Title(identity.service, identity.alertname) }

  function Title(service: string, alertname: string): string { "[" + service + "] " + alertname }

  // A firing alert as the webhook receives it; its service label may be missing.
  datatype Alert = Alert(alertname: string, service: Option<string>)

  // The title under which the webhook opens an incident: only a missing label reads "unknown".
  function WebhookTitle(a: Alert): string {
    Title(if a.service == None then "unknown" else a.service.value, a.alertname)
  }

  // The identity a pass reads back from the webhook's job: an empty label reads "unknown" too, the
  // name is stripped, and a blank one is no identity.
  function IdentityOf(a: Alert): Option<Identity> {
    if Trim(a.alertname) == "" then None
    else if a.service == None || a.service == Some("") then Some(Identity(Trim(a.alertname), "unknown"))
    else Some(Identity(Trim(a.alertname), a.service.value))
  }

  // The two titles of one alert agree if and only if its service label is not empty and its name
  // has no blanks around it.
  lemma TitlesAgree(a: Alert)
    requires IdentityOf(a).Some?
    ensures TitleOf(IdentityOf(a).value) == WebhookTitle(a) <==>
            a.service != Some("") && Trim(a.alertname) == a.alertname
  {
    var identity := IdentityOf(a).value;
    if a.service == Some("") {
      assert TitleOf(identity)[1] == 'u' && WebhookTitle(a)[1] == ']';
    } else {
      TitleCancels(identity.service, identity.alertname, a.alertname);
    }
  }

  lemma TitleCancels(service: string, a: string, b: string)
    ensures Title(service, a) == Title(service, b) <==> a == b
  {
    var n := |service| + 3;
    assert Title(service, a)[n..] == a && Title(service, b)[n..] == b;
  }

  // What the world contributes to one incident's turn: the pass's clock, the grace interval, the
  // store's stamp, whether a crash explains the clear, and whether another writer wins the race.
  datatype Env = Env(now: int, confirmAfter: int, stamp: int, crashed: bool, lostRace: bool)

  function Latest(inc: Incident): Option<Event> {
    if inc.timeline == [] then None else Some(inc.timeline[|inc.timeline| - 1])
  }

  predicate LatestIs(inc: Incident, kind: Kind) { Latest(inc).Some? && Latest(inc).value.kind == kind }

  function Record(inc: Incident, kind: Kind, stamp: int): Incident {
    inc.(timeline := inc.timeline + [Event(kind, stamp)])
  }

  // Applying a resolved alert: a compare-and-set when the status changes, then the event.
  function ReconcileResolved(inc: Incident, env: Env): (r: (Incident, bool)) {
    if !OpenToLookup(inc.status) then (inc, false)
    else
      var d := Decide(Some(inc.status), env.crashed);
      if d.markResolved then
        if env.lostRace then (inc, false) else (Record(inc.(status := Resolved), AlertResolved, env.stamp), true)
      else (Record(inc, AlertResolved, env.stamp), true)
  }

  // The incident is loaded as a candidate when a pass begins.
  predicate IsCandidate(inc: Incident) { Candidate(inc.status) && inc.prometheus }

  // A candidate is not looked at when its turn comes; its status is not tested again.
  predicate Skipped(inc: Incident) { inc.identity.None? || LatestIs(inc, AlertResolved) }

  // The pending absence evidence, if the latest event is one.
  function PendingSince(inc: Incident): Option<int> {
    match Latest(inc)
    case Some(Event(AbsenceObserved, at)) => Some(at)
    case _ => None
  }

  // What a pass that looks at the incident sees of its alert.
  function Seen(inc: Incident, snapshot: Snapshot): SourceState
    requires !Skipped(inc)
  {
    Classify(snapshot, inc.identity.value)
  }

  // The pass goes on to apply a resolved alert.
  predicate Confirms(inc: Incident, snapshot: Snapshot, env: Env) {
    !Skipped(inc) && Seen(inc, snapshot) == Clear
    && PendingSince(inc).Some? && env.now - PendingSince(inc).value >= env.confirmAfter
  }

  // One incident's turn; `found` tells whether the title lookup of a confirmed clear returns it.
  function Turn(inc: Incident, snapshot: Snapshot, env: Env, found: bool): Incident {
    if Skipped(inc) then inc
    else match Seen(inc, snapshot)
      case Unavailable => inc
      case Firing => if LatestIs(inc, AbsenceObserved) then Record(inc, FiringObserved, env.stamp) else inc
      case Clear =>
        if PendingSince(inc).None? then Record(inc, AbsenceObserved, env.stamp)
        else if env.now - PendingSince(inc).value < env.confirmAfter then inc
        else if found && TitleOf(inc.identity.value) == inc.title then ReconcileResolved(inc, env).0
        else inc
  }

  // ----- Runs of one incident

  // What can happen to an incident: a pass looks at it, a resolved alert with its title is applied
  // to it, or anything else moves its status or configuration.
  datatype Happening =
    | Nothing
    | Examined(snapshot: Snapshot, env: Env, found: bool)
    | Cleared(env: Env)
    | Moved(status: Status, identity: Option<Identity>, prometheus: bool)

  function Apply(inc: Incident, h: Happening): Incident {
    match h
    case Nothing => inc
    case Examined(snapshot, env, found) => Turn(inc, snapshot, env, found)
    case Cleared(env) => ReconcileResolved(inc, env).0
    case Moved(status, identity, prometheus) => inc.(status := status, identity := identity, prometheus := prometheus)
  }

  // The incident after the first n happenings of a run.
  function After(inc: Incident, run: seq<Happening>, n: nat): Incident
    requires n <= |run|
  {
    if n == 0 then inc else Apply(After(inc, run, n - 1), run[n - 1])
  }

  lemma {:induction false} AfterPrefix(inc: Incident, run: seq<Happening>, more: seq<Happening>, n: nat)
    requires n <= |run| <= |more| && more[..|run|] == run
    ensures After(inc, more, n) == After(inc, run, n)
    decreases n
  {
    if n > 0 {
      AfterPrefix(inc, run, more, n - 1);
      assert more[n - 1] == more[..|run|][n - 1];
    }
  }

  // Happening k is a pass that looked at the incident and found its alert in this state.
  ghost predicate Observed(inc: Incident, run: seq<Happening>, k: nat, state: SourceState)
    requires k < |run|
  {
    run[k].Examined? && !Skipped(After(inc, run, k)) && Seen(After(inc, run, k), run[k].snapshot) == state
  }

  // ----- Where absence evidence comes from

  // A timeline stays, or grows by one event of which each kind has only its own cause.
  lemma TurnTimeline(inc: Incident, h: Happening)
    ensures var t, after := inc.timeline, Apply(inc, h).timeline;
            after == t || (|after| == |t| + 1 && after[..|t|] == t && Caused(inc, h, after[|t|]))
  {}

  ghost predicate Caused(inc: Incident, h: Happening, e: Event) {
    match e.kind
    case AbsenceObserved =>
      && h.Examined? && !Skipped(inc) && Seen(inc, h.snapshot) == Clear
      && PendingSince(inc).None? && e.createdAt == h.env.stamp
    case FiringObserved =>
      h.Examined? && !Skipped(inc) && Seen(inc, h.snapshot) == Firing && LatestIs(inc, AbsenceObserved)
    case AlertResolved => h.Cleared? || (h.Examined? && Confirms(inc, h.snapshot, h.env))
  }

  // Pending evidence was recorded by an earlier pass that saw the alert clear, and nothing has
  // been recorded since.
  lemma {:induction false} AbsenceOrigin(inc: Incident, run: seq<Happening>, n: nat) returns (j: nat)
    requires inc.timeline == [] && n <= |run| && LatestIs(After(inc, run, n), AbsenceObserved)
    ensures j < n && Observed(inc, run, j, Clear)
    ensures Latest(After(inc, run, n)) == Some(Event(AbsenceObserved, run[j].env.stamp))
    ensures forall k :: j < k <= n ==> After(inc, run, k).timeline == After(inc, run, n).timeline
  {
    var before := After(inc, run, n - 1);
    TurnTimeline(before, run[n - 1]);
    if After(inc, run, n).timeline == before.timeline {
      j := AbsenceOrigin(inc, run, n - 1);
    } else {
      j := n - 1;
    }
  }

  lemma FiringRecorded(inc: Incident, snapshot: Snapshot, env: Env, found: bool)
    requires !Skipped(inc) && LatestIs(inc, AbsenceObserved) && Seen(inc, snapshot) == Firing
    ensures Turn(inc, snapshot, env, found).timeline != inc.timeline
  {}

  // Happening k neither is a pass that saw the alert firing nor records anything.
  ghost predicate Uneventful(inc: Incident, run: seq<Happening>, k: nat)
    requires k < |run|
  {
    !Observed(inc, run, k, Firing) && After(inc, run, k + 1).timeline == After(inc, run, k).timeline
  }

  // Happening k is a pass whose snapshot arrived, has rules for the incident's alert, all of them
  // healthy, and shows no matching or malformed instance.
  ghost predicate SawClear(inc: Incident, run: seq<Happening>, k: nat, identity: Identity)
    requires k < |run|
  {
    && run[k].Examined? && After(inc, run, k).identity == Some(identity)
    && ShowsClear(run[k].snapshot, identity)
  }

  // Happening j supplies the evidence on which happening n closes the incident: an earlier pass
  // that saw its alert clear, recorded at least the grace interval before, with no pass between
  // the two that saw it firing and nothing, in particular no resolved event, recorded.
  ghost predicate Supports(inc: Incident, run: seq<Happening>, j: nat, n: nat)
    requires n < |run| && run[n].Examined?
  {
    && j < n && run[j].Examined? && (exists identity :: SawClear(inc, run, j, identity))
    && run[n].env.now - run[j].env.stamp >= run[n].env.confirmAfter
    && forall k :: j < k < n ==> Uneventful(inc, run, k)
  }

  // No move changes which alert the incident is about.
  ghost predicate KeepsIdentity(inc: Incident, run: seq<Happening>, j: nat, n: nat)
    requires n <= |run|
  {
    forall k :: j <= k < n && run[k].Moved? ==> run[k].identity == After(inc, run, k).identity
  }

  lemma NothingRecorded(inc: Incident, run: seq<Happening>, k: nat)
    requires k < |run| && After(inc, run, k + 1).timeline == After(inc, run, k).timeline
    requires LatestIs(After(inc, run, k), AbsenceObserved)
    ensures Uneventful(inc, run, k)
  {
    if Observed(inc, run, k, Firing) {
      FiringRecorded(After(inc, run, k), run[k].snapshot, run[k].env, run[k].found);
    }
  }

  // While the timeline stays as it was when it ended with an absence, nothing was seen firing.
  lemma UneventfulSince(inc: Incident, run: seq<Happening>, j: nat, n: nat)
    requires j < n <= |run|
    requires forall k :: j < k <= n ==> After(inc, run, k).timeline == After(inc, run, n).timeline
    requires LatestIs(After(inc, run, n), AbsenceObserved)
    ensures forall k :: j < k < n ==> Uneventful(inc, run, k)
  {
    forall k | j < k < n ensures Uneventful(inc, run, k) {
      assert After(inc, run, k).timeline == After(inc, run, n).timeline == After(inc, run, k + 1).timeline;
      NothingRecorded(inc, run, k);
    }
  }

  lemma {:induction false} IdentityKept(inc: Incident, run: seq<Happening>, j: nat, n: nat)
    requires j <= n <= |run| && KeepsIdentity(inc, run, j, n)
    ensures After(inc, run, n).identity == After(inc, run, j).identity
    decreases n
  {
    if j < n {
      assert KeepsIdentity(inc, run, j, n - 1);
      IdentityKept(inc, run, j, n - 1);
    }
  }

  lemma ObservedClear(inc: Incident, run: seq<Happening>, k: nat)
    requires k < |run| && Observed(inc, run, k, Clear)
    ensures After(inc, run, k).identity.Some? && SawClear(inc, run, k, After(inc, run, k).identity.value)
  {
    ClearMeans(run[k].snapshot, After(inc, run, k).identity.value);
  }

  // Safety over every run: a clear is confirmed only in a pass whose snapshot shows the alert clear,
  // and only on the evidence of an earlier such pass, about the same alert unless a move between
  // them changed which alert the incident is about.
  lemma MissedClearSafe(inc: Incident, run: seq<Happening>, n: nat) returns (j: nat)
    requires inc.timeline == [] && n < |run| && run[n].Examined?
    requires Confirms(After(inc, run, n), run[n].snapshot, run[n].env)
    ensures Supports(inc, run, j, n)
    ensures exists identity :: SawClear(inc, run, n, identity)
    ensures KeepsIdentity(inc, run, j, n) ==>
            exists identity :: SawClear(inc, run, j, identity) && SawClear(inc, run, n, identity)
  {
    var before := After(inc, run, n);
    assert Latest(before) == Some(Event(AbsenceObserved, PendingSince(before).value));
    j := AbsenceOrigin(inc, run, n);
    UneventfulSince(inc, run, j, n);
    ObservedClear(inc, run, j);
    ObservedClear(inc, run, n);
    if KeepsIdentity(inc, run, j, n) {
      IdentityKept(inc, run, j, n);
    }
  }

  // ----- The shape of the timeline

  // Absence and firing in strict alternation, absence first, and then resolutions only.
  ghost predicate AlternatesTo(t: seq<Event>, k: nat) {
    && k <= |t|
    && (forall i :: 0 <= i < k ==> t[i].kind == if i % 2 == 0 then AbsenceObserved else FiringObserved)
    && (forall i :: k <= i < |t| ==> t[i].kind == AlertResolved)
  }

  // An event that may follow the last one.
  ghost predicate Follows(t: seq<Event>, e: Event) {
    match e.kind
    case AbsenceObserved => t == [] || t[|t| - 1].kind == FiringObserved
    case FiringObserved => t != [] && t[|t| - 1].kind == AbsenceObserved
    case AlertResolved => true
  }

  lemma AlternatesMore(t: seq<Event>, e: Event, k: nat) returns (k': nat)
    requires AlternatesTo(t, k) && Follows(t, e)
    ensures AlternatesTo(t + [e], k')
  {
    k' := if e.kind == AlertResolved then k else k + 1;
    if e.kind != AlertResolved && t != [] {
      assert k == |t| && t[k - 1].kind == if (k - 1) % 2 == 0 then AbsenceObserved else FiringObserved;
    }
  }

  lemma CausedFollows(inc: Incident, h: Happening, e: Event)
    requires Caused(inc, h, e)
    ensures Follows(inc.timeline, e)
  {
    var t := inc.timeline;
    if e.kind == AbsenceObserved && t != [] {
      assert Latest(inc) == Some(t[|t| - 1]);
    }
  }

  lemma AlternatesStep(inc: Incident, h: Happening, k: nat) returns (k': nat)
    requires AlternatesTo(inc.timeline, k)
    ensures AlternatesTo(Apply(inc, h).timeline, k')
  {
    var t, after := inc.timeline, Apply(inc, h).timeline;
    TurnTimeline(inc, h);
    k' := k;
    if after != t {
      CausedFollows(inc, h, after[|t|]);
      k' := AlternatesMore(t, after[|t|], k);
      assert after == t + [after[|t|]];
    }
  }

  // In every run the source events strictly alternate until resolution.
  lemma {:induction false} AlternatesAlways(inc: Incident, run: seq<Happening>, n: nat) returns (k: nat)
    requires inc.timeline == [] && n <= |run|
    ensures AlternatesTo(After(inc, run, n).timeline, k)
  {
    if n == 0 {
      k := 0;
    } else {
      k := AlternatesAlways(inc, run, n - 1);
      k := AlternatesStep(After(inc, run, n - 1), run[n - 1], k);
    }
  }

  // ----- After a clear

  // The statuses a clear resolves, unless a crash explains it or another writer was faster.
  const RESOLVABLE: set<Status> :=
    {Open, Investigating, Investigated, AwaitingApproval, RemediationInProgress, VerificationUnknown}

  // What applying a resolved alert does to an incident, and whether it is reported as matched: a
  // resolvable one becomes resolved, any other unresolved one is only noted, and one that another
  // writer was faster to change, like one already resolved, is left alone.
  ghost predicate ResolvedAlert(before: Incident, after: Incident, env: Env, matched: bool) {
    var resolves := before.status in RESOLVABLE && !env.crashed;
    && (after.status == Resolved <==> before.status == Resolved || (resolves && !env.lostRace))
    && (after.status != Resolved ==> after.status == before.status)
    && (matched <==> before.status != Resolved && !(resolves && env.lostRace))
    && after.timeline == before.timeline + (if matched then [Event(AlertResolved, env.stamp)] else [])
    && after == before.(status := after.status, timeline := after.timeline)
  }

  lemma ReconcileMeans(inc: Incident, env: Env)
    ensures var (after, matched) := ReconcileResolved(inc, env); ResolvedAlert(inc, after, env, matched)
  {}

  // A clear without pending evidence is recorded.
  lemma FirstClearRecords(inc: Incident, identity: Identity, h: Happening)
    requires inc.identity == Some(identity) && !LatestIs(inc, AbsenceObserved) && !LatestIs(inc, AlertResolved)
    requires h.Examined? && ShowsClear(h.snapshot, identity)
    ensures Apply(inc, h) == inc.(timeline := inc.timeline + [Event(AbsenceObserved, h.env.stamp)])
  {
    ClearMeans(h.snapshot, identity);
  }

  // A clear late enough after pending evidence resolves an incident that it finds.
  lemma ConfirmedResolves(inc: Incident, identity: Identity, h: Happening)
    requires inc.identity == Some(identity) && TitleOf(identity) == inc.title && inc.status in RESOLVABLE
    requires LatestIs(inc, AbsenceObserved) && h.Examined? && ShowsClear(h.snapshot, identity) && h.found
    requires h.env.now - Latest(inc).value.createdAt >= h.env.confirmAfter && !h.env.crashed && !h.env.lostRace
    ensures Apply(inc, h).status == Resolved
  {
    ClearMeans(h.snapshot, identity);
    ReconcileMeans(inc, h.env);
  }

  // The protocol closes: two passes that see the alert clear, the second at least the grace interval
  // after the first recorded it, resolve an incident that its own clear finds.
  lemma TwoClearLooksResolve(inc: Incident, identity: Identity, first: Happening, second: Happening)
    requires inc.identity == Some(identity) && TitleOf(identity) == inc.title && inc.status in RESOLVABLE
    requires !LatestIs(inc, AbsenceObserved) && !LatestIs(inc, AlertResolved)
    requires first.Examined? && ShowsClear(first.snapshot, identity)
    requires second.Examined? && ShowsClear(second.snapshot, identity) && second.found
    requires !second.env.crashed && !second.env.lostRace
    requires second.env.now - first.env.stamp >= second.env.confirmAfter
    ensures Apply(inc, first) == inc.(timeline := inc.timeline + [Event(AbsenceObserved, first.env.stamp)])
    ensures Apply(Apply(inc, first), second).status == Resolved
  {
    FirstClearRecords(inc, identity, first);
    ConfirmedResolves(Apply(inc, first), identity, second);
  }

  // A firing alert discards pending evidence, so that the protocol starts over.
  lemma FiringDiscards(inc: Incident, identity: Identity, h: Happening)
    requires inc.identity == Some(identity) && LatestIs(inc, AbsenceObserved)
    requires h.Examined? && ShowsFiring(h.snapshot, identity)
    ensures Apply(inc, h) == inc.(timeline := inc.timeline + [Event(FiringObserved, h.env.stamp)])
  {
    FiringMeans(h.snapshot, identity);
  }

  // A clear that does not resolve, over a failed remediation or behind a crash, leaves the incident
  // among the candidates' statuses with a resolution as its latest event.
  lemma ClearedYetOpen(inc: Incident, env: Env)
    requires Candidate(inc.status) && (inc.status == RemediationFailed || env.crashed)
    ensures var after := ReconcileResolved(inc, env).0;
            after.status == inc.status && LatestIs(after, AlertResolved)
  {}

  // From then on no pass looks at it, whatever happens: neither its alert, nor another resolved alert,
  // nor a reopening makes a pass change it, and without another resolved alert its timeline stays.
  lemma {:induction false} NeverLookedAtAgain(inc: Incident, run: seq<Happening>, n: nat, m: nat)
    requires n <= m <= |run| && LatestIs(After(inc, run, n), AlertResolved)
    ensures LatestIs(After(inc, run, m), AlertResolved) && Skipped(After(inc, run, m))
    ensures m < |run| && run[m].Examined? ==> After(inc, run, m + 1) == After(inc, run, m)
    ensures (forall k :: n <= k < m ==> !run[k].Cleared?) ==> After(inc, run, m).timeline == After(inc, run, n).timeline
    decreases m
  {
    if n < m {
      NeverLookedAtAgain(inc, run, n, m - 1);
    }
  }

  // The lookup is wider than the rules: exactly an incident pending acknowledgment is reported as
  // matched, and gets a resolved event, although the decision did not match it.
  lemma MatchedWithoutDecision(inc: Incident, env: Env)
    ensures ReconcileResolved(inc, env).1 && !Decide(Some(inc.status), env.crashed).matched
            <==> inc.status == PendingAcknowledgment
    ensures inc.status == PendingAcknowledgment ==> ReconcileResolved(inc, env).0.status == PendingAcknowledgment
  {}
}

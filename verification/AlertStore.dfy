/**
 The incidents a missed-clear pass works on: the title lookup, the pass itself, and the whole
 store's history as a run of each incident (src/sre_agent/alert_lifecycle_reconciler.py,
 src/backend/crud.py).
 */
module AlertStore {
  import opened Results
  import opened Text
  import opened AlertSource
  import opened AlertLifecycle

  // ----- The store

  type Incidents = map<string, Incident>

  predicate OpenAs(inc: Incident, cluster: string, title: string) {
    inc.cluster == cluster && inc.title == title && OpenToLookup(inc.status)
  }

  // The newest open incident with a title, or none; which of several equally new ones is open.
  ghost predicate IsLookup(incidents: Incidents, cluster: string, title: string, r: Option<string>) {
    match r
    case None => forall id :: id in incidents ==> !OpenAs(incidents[id], cluster, title)
    case Some(id) =>
      && id in incidents && OpenAs(incidents[id], cluster, title)
      && forall other :: other in incidents && OpenAs(incidents[other], cluster, title)
           ==> incidents[other].openedAt <= incidents[id].openedAt
  }

  // What can happen to the store between two moments: a pass looks at an incident, a resolved
  // webhook reaches one, anything else moves one's status or configuration, or one is opened.
  datatype Step =
    | Look(id: string, snapshot: Snapshot, env: Env, found: Option<string>)
    | Webhook(id: string, env: Env)
    | Move(id: string, status: Status, identity: Option<Identity>, prometheus: bool)
    | Open(id: string, incident: Incident)

  // The step is possible: its incident exists, or is new, and its lookup is one the store allows.
  ghost predicate Legal(incidents: Incidents, step: Step) {
    match step
    case Look(id, snapshot, env, found) =>
      && id in incidents
      && (Confirms(incidents[id], snapshot, env) ==>
            IsLookup(incidents, incidents[id].cluster, TitleOf(incidents[id].identity.value), found))
    case Webhook(id, env) => id in incidents
    case Move(id, status, identity, prometheus) => id in incidents
    case Open(id, incident) => id !in incidents && incident.timeline == []
  }

  // A confirmed clear is applied to the incident its title lookup returned, whichever that is.
  function Next(incidents: Incidents, step: Step): Incidents {
    match step
    case Look(id, snapshot, env, found) =>
      if id !in incidents then incidents
      else if Confirms(incidents[id], snapshot, env) then
        if found.Some? && found.value in incidents then
          incidents[found.value := ReconcileResolved(incidents[found.value], env).0]
        else incidents
      else incidents[id := Turn(incidents[id], snapshot, env, false)]
    case Webhook(id, env) =>
      if id in incidents then incidents[id := ReconcileResolved(incidents[id], env).0] else incidents
    case Move(id, status, identity, prometheus) =>
      if id in incidents then
        incidents[id := incidents[id].(status := status, identity := identity, prometheus := prometheus)]
      else incidents
    case Open(id, incident) => incidents[id := incident]
  }

  // A confirmed clear changed or noted something, so the pass reports its incident as recovered.
  predicate Matched(incidents: Incidents, step: Step) {
    && step.Look? && step.id in incidents && Confirms(incidents[step.id], step.snapshot, step.env)
    && step.found.Some? && step.found.value in incidents
    && ReconcileResolved(incidents[step.found.value], step.env).1
  }

  // The store after a history.
  function World(incidents: Incidents, steps: seq<Step>): Incidents {
    if steps == [] then incidents else Next(World(incidents, steps[..|steps| - 1]), steps[|steps| - 1])
  }

  ghost predicate History(incidents: Incidents, steps: seq<Step>) {
    steps == []
    || var init, last := steps[..|steps| - 1], steps[|steps| - 1];
       History(incidents, init) && Legal(World(incidents, init), last)
  }

  // ----- A pass over all candidates

  // The n-th snapshot the loader would return, and those already loaded in this pass.
  datatype Loader = Loader(load: nat -> Snapshot, calls: nat, snapshots: map<string, Snapshot>) {
    ghost predicate Extends(earlier: Loader) {
      && load == earlier.load
      && forall c :: c in earlier.snapshots ==> c in snapshots && snapshots[c] == earlier.snapshots[c]
    }

    // One call for each cluster, and every snapshot came from a call.
    ghost predicate Genuine() {
      && calls == |snapshots|
      && forall c :: c in snapshots ==> exists n :: 0 <= n < calls && snapshots[c] == load(n)
    }
  }

  // The cluster's snapshot, loaded unless this pass has it already.
  method SnapshotOf(cluster: string, loader: Loader) returns (snapshot: Snapshot, now: Loader)
    requires loader.Genuine()
    ensures now.Genuine() && now.Extends(loader)
    ensures now.snapshots.Keys == loader.snapshots.Keys + {cluster} && now.snapshots[cluster] == snapshot
  {
    now := loader;
    if cluster !in now.snapshots {
      now := Loader(now.load, now.calls + 1, now.snapshots[cluster := now.load(now.calls)]);
      assert now.snapshots[cluster] == now.load(loader.calls);
    }
    snapshot := now.snapshots[cluster];
  }

  // The newest open incident with the title.
  method FindActive(incidents: Incidents, cluster: string, title: string) returns (r: Option<string>)
    ensures IsLookup(incidents, cluster, title, r)
  {
    r := None;
    var left := incidents.Keys;
    while left != {}
      invariant left <= incidents.Keys
      invariant r.None? ==> forall o :: o in incidents && o !in left ==> !OpenAs(incidents[o], cluster, title)
      invariant r.Some? ==>
                  && r.value in incidents && OpenAs(incidents[r.value], cluster, title)
                  && forall o :: o in incidents && o !in left && OpenAs(incidents[o], cluster, title)
                       ==> incidents[o].openedAt <= incidents[r.value].openedAt
      decreases left
    {
      var id :| id in left;
      var inc := incidents[id];
      if OpenAs(inc, cluster, title) && (r.None? || incidents[r.value].openedAt < inc.openedAt) {
        r := Some(id);
      }
      left := left - {id};
    }
  }

  // All candidates, each once, oldest first.
  ghost predicate CandidateOrder(incidents: Incidents, order: seq<string>) {
    && (forall id :: id in order <==>
          && id in incidents && incidents[id].prometheus
          && (incidents[id].status in RESOLVABLE || incidents[id].status == RemediationFailed))
    && (forall i, j :: 0 <= i < j < |order| ==>
          order[i] != order[j] && incidents[order[i]].openedAt <= incidents[order[j]].openedAt)
  }

  method Oldest(incidents: Incidents, left: set<string>) returns (id: string)
    requires left != {} && left <= incidents.Keys
    ensures id in left && forall o :: o in left ==> incidents[id].openedAt <= incidents[o].openedAt
  {
    id :| id in left;
    var rest := left - {id};
    while rest != {}
      invariant rest <= left && id in left
      invariant forall o :: o in left && o !in rest ==> incidents[id].openedAt <= incidents[o].openedAt
      decreases rest
    {
      var o :| o in rest;
      if incidents[o].openedAt < incidents[id].openedAt {
        id := o;
      }
      rest := rest - {o};
    }
  }

  // The candidates of a pass, loaded once.
  method LoadCandidates(incidents: Incidents) returns (order: seq<string>)
    ensures CandidateOrder(incidents, order)
  {
    order := [];
    var left := set id | id in incidents && IsCandidate(incidents[id]);
    while left != {}
      invariant left <= incidents.Keys
      invariant forall id :: id in left || id in order <==> id in incidents && IsCandidate(incidents[id])
      invariant forall i :: 0 <= i < |order| ==> order[i] !in left
      invariant forall i, o :: 0 <= i < |order| && o in left ==> incidents[order[i]].openedAt <= incidents[o].openedAt
      invariant forall i, j :: 0 <= i < j < |order| ==>
                  order[i] != order[j] && incidents[order[i]].openedAt <= incidents[order[j]].openedAt
      decreases left
    {
      var id := Oldest(incidents, left);
      order := order + [id];
      left := left - {id};
    }
  }

  // What one look does to the store and whether it reports its incident, in terms of what the
  // snapshot shows: nothing to an incident without an identity or after a resolution; otherwise a first
  // clear is recorded, a later one waits for the grace interval and then is applied to the incident
  // its title finds, firing discards a recorded clear, and doubt changes nothing.
  ghost predicate LookResult(before: Incidents, after: Incidents, step: Step, reported: bool)
    requires step.Look? && step.id in before
  {
    var inc, env, n := before[step.id], step.env, |before[step.id].timeline|;
    if inc.identity == None || (n > 0 && inc.timeline[n - 1].kind == AlertResolved) then after == before && !reported
    else if ShowsClear(step.snapshot, inc.identity.value) then
      if n == 0 || inc.timeline[n - 1].kind != AbsenceObserved then
        after == before[step.id := Record(inc, AbsenceObserved, env.stamp)] && !reported
      else if env.now - inc.timeline[n - 1].createdAt < env.confirmAfter then after == before && !reported
      else
        && IsLookup(before, inc.cluster, TitleOf(inc.identity.value), step.found)
        && if step.found.None? then after == before && !reported
           else
             var f := step.found.value;
             f in after && after == before[f := after[f]] && ResolvedAlert(before[f], after[f], env, reported)
    else if ShowsFiring(step.snapshot, inc.identity.value) && n > 0 && inc.timeline[n - 1].kind == AbsenceObserved then
      after == before[step.id := Record(inc, FiringObserved, env.stamp)] && !reported
    else after == before && !reported
  }

  lemma LookMeans(incidents: Incidents, step: Step)
    requires step.Look? && Legal(incidents, step)
    ensures LookResult(incidents, Next(incidents, step), step, Matched(incidents, step))
  {
    var inc := incidents[step.id];
    assert incidents[step.id := inc] == incidents;
    if !Skipped(inc) {
      ClearMeans(step.snapshot, inc.identity.value);
      FiringMeans(step.snapshot, inc.identity.value);
      UnavailableMeans(step.snapshot, inc.identity.value);
      if Confirms(inc, step.snapshot, step.env) && step.found.Some? {
        ReconcileMeans(incidents[step.found.value], step.env);
      }
    }
  }

  // What a pass did to one candidate, given the snapshots it loaded.
  ghost predicate Looked(incidents: Incidents, id: string, step: Step, snapshots: map<string, Snapshot>, env: Env) {
    && step.Look? && step.id == id && step.env == env && Legal(incidents, step)
    && (!Skipped(incidents[id]) ==>
          incidents[id].cluster in snapshots && snapshots[incidents[id].cluster] == step.snapshot)
  }

  // A look at an incident that is skipped.
  lemma LookedPast(incidents: Incidents, step: Step, snapshots: map<string, Snapshot>)
    requires step.Look? && step.id in incidents && Skipped(incidents[step.id])
    ensures Looked(incidents, step.id, step, snapshots, step.env)
    ensures Next(incidents, step) == incidents && !Matched(incidents, step)
    ensures snapshots.Keys == snapshots.Keys + ClusterOf(incidents, step.id)
  {
    assert incidents[step.id := incidents[step.id]] == incidents;
  }

  // A look that confirms nothing.
  lemma LookedOn(incidents: Incidents, step: Step, snapshots: map<string, Snapshot>)
    requires step.Look? && step.id in incidents && !Skipped(incidents[step.id])
    requires !Confirms(incidents[step.id], step.snapshot, step.env)
    requires incidents[step.id].cluster in snapshots && snapshots[incidents[step.id].cluster] == step.snapshot
    ensures Looked(incidents, step.id, step, snapshots, step.env) && !Matched(incidents, step)
    ensures Next(incidents, step) == incidents[step.id := Turn(incidents[step.id], step.snapshot, step.env, false)]
    ensures Next(incidents, step).Keys == incidents.Keys
            && ClusterOf(incidents, step.id) == {incidents[step.id].cluster}
  {}

  // A look that confirms a clear.
  lemma LookedClosing(incidents: Incidents, step: Step, snapshots: map<string, Snapshot>)
    requires step.Look? && step.id in incidents && Confirms(incidents[step.id], step.snapshot, step.env)
    requires incidents[step.id].cluster in snapshots && snapshots[incidents[step.id].cluster] == step.snapshot
    requires IsLookup(incidents, incidents[step.id].cluster, TitleOf(incidents[step.id].identity.value), step.found)
    ensures Looked(incidents, step.id, step, snapshots, step.env)
    ensures Next(incidents, step) ==
            if step.found.None? then incidents
            else incidents[step.found.value := ReconcileResolved(incidents[step.found.value], step.env).0]
    ensures Matched(incidents, step) <==>
            step.found.Some? && ReconcileResolved(incidents[step.found.value], step.env).1
    ensures Next(incidents, step).Keys == incidents.Keys
            && ClusterOf(incidents, step.id) == {incidents[step.id].cluster}
  {}

  class Store {
    var incidents: Incidents

    // A candidate's turn up to a confirmed clear.
    method Observe(id: string, snapshot: Snapshot, env: Env) returns (confirmed: bool)
      requires id in incidents && !Skipped(incidents[id])
      modifies this
      ensures confirmed <==> Confirms(old(incidents)[id], snapshot, env)
      ensures incidents == if confirmed then old(incidents)
                           else old(incidents)[id := Turn(old(incidents)[id], snapshot, env, false)]
    {
      var inc := incidents[id];
      assert incidents == incidents[id := inc];
      var state := ObserveAlertSource(snapshot, inc.identity.value);
      if state == Unavailable {
        return false;
      }
      if state == Firing {
        if LatestIs(inc, AbsenceObserved) {
          incidents := incidents[id := Record(inc, FiringObserved, env.stamp)];
        }
        return false;
      }
      var since := PendingSince(inc);
      if since.None? {
        incidents := incidents[id := Record(inc, AbsenceObserved, env.stamp)];
        return false;
      }
      return env.now - since.value >= env.confirmAfter;
    }

    // Applies a resolved alert to the incident its title lookup returns.
    method ApplyResolved(cluster: string, title: string, env: Env) returns (found: Option<string>, matched: bool)
      modifies this
      ensures IsLookup(old(incidents), cluster, title, found)
      ensures matched <==> found.Some? && ReconcileResolved(old(incidents)[found.value], env).1
      ensures found.Some? ==>
                && found.value in incidents
                && ResolvedAlert(old(incidents)[found.value], incidents[found.value], env, matched)
      ensures incidents == if found.None? then old(incidents)
                           else old(incidents)[found.value := ReconcileResolved(old(incidents)[found.value], env).0]
    {
      found := FindActive(incidents, cluster, title);
      matched := false;
      if found.Some? {
        ReconcileMeans(incidents[found.value], env);
        var result := ReconcileResolved(incidents[found.value], env);
        matched := result.1;
        incidents := incidents[found.value := result.0];
      }
    }

    // One candidate of a pass.
    method Examine(id: string, loader: Loader, env: Env) returns (matched: bool, now: Loader, ghost step: Step)
      requires id in incidents && loader.Genuine()
      modifies this
      ensures now.Genuine() && now.Extends(loader)
      ensures now.snapshots.Keys == loader.snapshots.Keys + ClusterOf(old(incidents), id)
      ensures Looked(old(incidents), id, step, now.snapshots, env)
      ensures incidents == Next(old(incidents), step) && incidents.Keys == old(incidents).Keys
      ensures matched <==> Matched(old(incidents), step)
    {
      var inc := incidents[id];
      ghost var before := incidents;
      if Skipped(inc) {
        step := Look(id, Snapshot(false, []), env, None);
        LookedPast(before, step, loader.snapshots);
        return false, loader, step;
      }
      var snapshot;
      snapshot, now := SnapshotOf(inc.cluster, loader);
      matched, step := false, Look(id, snapshot, env, None);
      var confirmed := Observe(id, snapshot, env);
      if confirmed {
        var found;
        found, matched := ApplyResolved(inc.cluster, TitleOf(inc.identity.value), env);
        step := Look(id, snapshot, env, found);
        LookedClosing(before, step, now.snapshots);
      } else {
        LookedOn(before, step, now.snapshots);
      }
    }

    // A pass is a history of looks, one for each candidate loaded at its start, oldest first, on one
    // snapshot for each cluster; it reports exactly the candidates whose confirmed clear was applied.
    method Pass(load: nat -> Snapshot, env: string -> Env)
      returns (recovered: seq<string>, snapshots: map<string, Snapshot>,
               ghost order: seq<string>, ghost steps: seq<Step>)
      modifies this
      ensures CandidateOrder(old(incidents), order)
      ensures Loader(load, |snapshots|, snapshots).Genuine()
      ensures snapshots.Keys == Clusters(old(incidents), order, steps)
      ensures LookedInOrder(old(incidents), order, steps, snapshots, env) && incidents == World(old(incidents), steps)
      ensures recovered == Recovered(old(incidents), order, steps)
      ensures forall i :: 0 <= i < |steps| ==> EachLook(old(incidents), order, steps, i)
      ensures forall id :: id in recovered <==> Reported(old(incidents), order, steps, id)
    {
      var candidates := LoadCandidates(incidents);
      order := candidates;
      var loader := Loader(load, 0, map[]);
      recovered, steps := [], [];
      for i := 0 to |candidates|
        invariant loader.load == load && loader.Genuine()
        invariant loader.snapshots.Keys == Clusters(old(incidents), order[..i], steps)
        invariant LookedInOrder(old(incidents), order[..i], steps, loader.snapshots, env)
        invariant incidents == World(old(incidents), steps) && incidents.Keys == old(incidents).Keys
        invariant recovered == Recovered(old(incidents), order[..i], steps)
      {
        ghost var before, done := loader, steps;
        ghost var step;
        var matched;
        matched, loader, step := Examine(candidates[i], loader, env(candidates[i]));
        steps := done + [step];
        SliceMore(order, i);
        LookedMore(old(incidents), order[..i], order[i], done, step, before, loader, env);
        OneMore(old(incidents), order[..i], order[i], done, step);
        if matched {
          recovered := recovered + [candidates[i]];
        }
      }
      assert order[..|order|] == order;
      snapshots := loader.snapshots;
      forall i | 0 <= i < |steps| ensures EachLook(old(incidents), order, steps, i) {
        LooksMean(old(incidents), order, steps, snapshots, env, i);
      }
      forall id ensures id in recovered <==> Reported(old(incidents), order, steps, id) {
        RecoveredMeans(old(incidents), order, steps, id);
      }
    }
  }

  ghost predicate LookedInOrder(incidents: Incidents, order: seq<string>, steps: seq<Step>,
                                snapshots: map<string, Snapshot>, env: string -> Env)
  {
    && |steps| == |order|
    && (steps == []
        || var n := |steps| - 1;
           && LookedInOrder(incidents, order[..n], steps[..n], snapshots, env)
           && Looked(World(incidents, steps[..n]), order[n], steps[n], snapshots, env(order[n])))
  }

  // The cluster whose snapshot an incident's turn needs.
  ghost function ClusterOf(incidents: Incidents, id: string): set<string> {
    if id in incidents && !Skipped(incidents[id]) then {incidents[id].cluster} else {}
  }

  ghost function Clusters(incidents: Incidents, order: seq<string>, steps: seq<Step>): set<string> {
    if steps == [] || |order| != |steps| then {}
    else
      var n := |steps| - 1;
      Clusters(incidents, order[..n], steps[..n]) + ClusterOf(World(incidents, steps[..n]), order[n])
  }

  // The candidates whose confirmed clear was applied, in order.
  ghost function Recovered(incidents: Incidents, order: seq<string>, steps: seq<Step>): seq<string>
    requires |order| == |steps|
  {
    if steps == [] then []
    else
      var n := |steps| - 1;
      Recovered(incidents, order[..n], steps[..n])
      + (if Matched(World(incidents, steps[..n]), steps[n]) then [order[n]] else [])
  }

  lemma SliceMore(order: seq<string>, i: nat)
    requires i < |order|
    ensures order[..i + 1] == order[..i] + [order[i]]
  {}

  // Loading further snapshots changes no earlier look.
  lemma {:induction false} LookedStands(incidents: Incidents, order: seq<string>, steps: seq<Step>,
                                        loader: Loader, now: Loader, env: string -> Env)
    requires now.Extends(loader) && LookedInOrder(incidents, order, steps, loader.snapshots, env)
    ensures LookedInOrder(incidents, order, steps, now.snapshots, env)
    decreases |steps|
  {
    if steps != [] {
      var n := |steps| - 1;
      LookedStands(incidents, order[..n], steps[..n], loader, now, env);
    }
  }

  lemma LookedMore(incidents: Incidents, order: seq<string>, id: string, steps: seq<Step>, step: Step,
                   loader: Loader, now: Loader, env: string -> Env)
    requires LookedInOrder(incidents, order, steps, loader.snapshots, env) && now.Extends(loader)
    requires Looked(World(incidents, steps), id, step, now.snapshots, env(id))
    ensures LookedInOrder(incidents, order + [id], steps + [step], now.snapshots, env)
  {
    LookedStands(incidents, order, steps, loader, now, env);
    assert (order + [id])[..|order|] == order && (steps + [step])[..|steps|] == steps;
  }

  lemma OneMore(incidents: Incidents, order: seq<string>, id: string, steps: seq<Step>, step: Step)
    requires |order| == |steps|
    ensures World(incidents, steps + [step]) == Next(World(incidents, steps), step)
    ensures Clusters(incidents, order + [id], steps + [step])
            == Clusters(incidents, order, steps) + ClusterOf(World(incidents, steps), id)
    ensures Recovered(incidents, order + [id], steps + [step])
            == Recovered(incidents, order, steps) + (if Matched(World(incidents, steps), step) then [id] else [])
  {
    assert (order + [id])[..|order|] == order && (steps + [step])[..|steps|] == steps;
  }

  // Look i of a pass reports its candidate.
  ghost predicate Reports(incidents: Incidents, steps: seq<Step>, i: int)
    requires 0 <= i < |steps|
  {
    Matched(World(incidents, steps[..i]), steps[i])
  }

  // Look i of a pass was at its candidate and had its result.
  ghost predicate EachLook(incidents: Incidents, order: seq<string>, steps: seq<Step>, i: int)
    requires 0 <= i < |steps|
  {
    && i < |order| && steps[i].Look? && steps[i].id == order[i] && order[i] in World(incidents, steps[..i])
    && LookResult(World(incidents, steps[..i]), World(incidents, steps[..i + 1]), steps[i],
                  Reports(incidents, steps, i))
  }

  lemma {:induction false} LooksMean(incidents: Incidents, order: seq<string>, steps: seq<Step>,
                                     snapshots: map<string, Snapshot>, env: string -> Env, i: nat)
    requires LookedInOrder(incidents, order, steps, snapshots, env) && i < |steps|
    ensures EachLook(incidents, order, steps, i)
    decreases |steps|
  {
    var n := |steps| - 1;
    if i < n {
      LooksMean(incidents, order[..n], steps[..n], snapshots, env, i);
      assert steps[..n][..i] == steps[..i] && steps[..n][..i + 1] == steps[..i + 1];
    } else {
      LookMeans(World(incidents, steps[..n]), steps[n]);
      assert steps[..n + 1] == steps;
    }
  }

  // Some look of the pass at the candidate reports it.
  ghost predicate Reported(incidents: Incidents, order: seq<string>, steps: seq<Step>, id: string)
    requires |order| == |steps|
  {
    exists i :: 0 <= i < |steps| && order[i] == id && Reports(incidents, steps, i)
  }

  lemma {:induction false} ReportedIn(incidents: Incidents, order: seq<string>, steps: seq<Step>, i: nat)
    requires |order| == |steps| && i < |steps| && Reports(incidents, steps, i)
    ensures order[i] in Recovered(incidents, order, steps)
    decreases |steps|
  {
    var n := |steps| - 1;
    if i < n {
      assert steps[..n][..i] == steps[..i] && order[..n][i] == order[i];
      ReportedIn(incidents, order[..n], steps[..n], i);
    }
  }

  lemma {:induction false} ReportedBy(incidents: Incidents, order: seq<string>, steps: seq<Step>, id: string)
    returns (i: nat)
    requires |order| == |steps| && id in Recovered(incidents, order, steps)
    ensures i < |steps| && order[i] == id && Reports(incidents, steps, i)
    decreases |steps|
  {
    var n := |steps| - 1;
    if Reports(incidents, steps, n) && order[n] == id {
      i := n;
    } else {
      i := ReportedBy(incidents, order[..n], steps[..n], id);
      assert steps[..n][..i] == steps[..i];
    }
  }

  lemma RecoveredMeans(incidents: Incidents, order: seq<string>, steps: seq<Step>, id: string)
    requires |order| == |steps|
    ensures id in Recovered(incidents, order, steps) <==> Reported(incidents, order, steps, id)
  {
    if id in Recovered(incidents, order, steps) {
      var i := ReportedBy(incidents, order, steps, id);
    }
    if Reported(incidents, order, steps, id) {
      var i :| 0 <= i < |steps| && order[i] == id && Reports(incidents, steps, i);
      ReportedIn(incidents, order, steps, i);
    }
  }

  // A pass is a history.
  lemma {:induction false} PassIsHistory(incidents: Incidents, order: seq<string>, steps: seq<Step>,
                                         snapshots: map<string, Snapshot>, env: string -> Env)
    requires LookedInOrder(incidents, order, steps, snapshots, env)
    ensures History(incidents, steps)
    decreases |steps|
  {
    if steps != [] {
      PassIsHistory(incidents, order[..|steps| - 1], steps[..|steps| - 1], snapshots, env);
    }
  }

  // ----- Whose incident a confirmed clear closes

  // The incident is open, its title is the one its alert is looked up by, and every other open
  // incident with that title in the cluster is strictly older.
  ghost predicate FindsItself(incidents: Incidents, id: string)
    requires id in incidents && incidents[id].identity.Some?
  {
    var inc := incidents[id];
    && OpenToLookup(inc.status) && TitleOf(inc.identity.value) == inc.title
    && forall other :: other in incidents && other != id && OpenAs(incidents[other], inc.cluster, inc.title) ==>
         incidents[other].openedAt < inc.openedAt
  }

  // The lookup of an incident's alert always returns that incident exactly then.
  lemma LookupFindsSelf(incidents: Incidents, id: string)
    requires id in incidents && incidents[id].identity.Some?
    ensures var inc := incidents[id];
            (forall r :: IsLookup(incidents, inc.cluster, TitleOf(inc.identity.value), r) ==> r == Some(id))
            <==> FindsItself(incidents, id)
  {
    var inc := incidents[id];
    var title := TitleOf(inc.identity.value);
    if FindsItself(incidents, id) {
      forall r | IsLookup(incidents, inc.cluster, title, r) ensures r == Some(id) {}
    } else {
      var r := OtherLookup(incidents, inc.cluster, title, id);
      assert IsLookup(incidents, inc.cluster, title, r) && r != Some(id);
    }
  }

  // A lookup can return another answer than `id` unless `id` is open with the title and strictly
  // newer than all others: prefer the others, newest first.
  lemma OtherLookup(incidents: Incidents, cluster: string, title: string, id: string) returns (r: Option<string>)
    requires id in incidents
    requires OpenAs(incidents[id], cluster, title) ==>
               exists other :: other in incidents && other != id && OpenAs(incidents[other], cluster, title)
                               && incidents[other].openedAt >= incidents[id].openedAt
    ensures IsLookup(incidents, cluster, title, r) && r != Some(id)
  {
    r := NewestAmong(incidents, incidents.Keys - {id}, cluster, title);
    if OpenAs(incidents[id], cluster, title) {
      var other :| other in incidents && other != id && OpenAs(incidents[other], cluster, title)
                   && incidents[other].openedAt >= incidents[id].openedAt;
      assert other in incidents.Keys - {id};
    }
  }

  // The newest open incident with the title among some, or none.
  lemma {:induction false} NewestAmong(incidents: Incidents, among: set<string>, cluster: string, title: string)
    returns (r: Option<string>)
    requires among <= incidents.Keys
    ensures r.None? ==> forall o :: o in among ==> !OpenAs(incidents[o], cluster, title)
    ensures r.Some? ==>
              && r.value in among && OpenAs(incidents[r.value], cluster, title)
              && forall o :: o in among && OpenAs(incidents[o], cluster, title)
                   ==> incidents[o].openedAt <= incidents[r.value].openedAt
    decreases among
  {
    r := None;
    if among != {} {
      var o :| o in among;
      r := NewestAmong(incidents, among - {o}, cluster, title);
      if OpenAs(incidents[o], cluster, title) && (r.None? || incidents[r.value].openedAt < incidents[o].openedAt) {
        r := Some(o);
      }
    }
  }

  // A confirmed clear of such an incident changes that incident and no other.
  lemma ClosesOwn(incidents: Incidents, step: Step)
    requires step.Look? && Legal(incidents, step) && Confirms(incidents[step.id], step.snapshot, step.env)
    requires FindsItself(incidents, step.id)
    ensures step.found == Some(step.id)
    ensures var next := Next(incidents, step);
            && step.id in next && next == incidents[step.id := next[step.id]]
            && ResolvedAlert(incidents[step.id], next[step.id], step.env, Matched(incidents, step))
  {
    LookupFindsSelf(incidents, step.id);
    ReconcileMeans(incidents[step.id], step.env);
  }

  // An incident the webhook opened for an alert whose service label is empty is never found by its
  // own clear: alone in the store, the lookup returns nothing; next to an open incident of an alert
  // of that name without the label, it returns that one.
  lemma EmptyServiceLost(a: Alert, inc: Incident, twin: Incident)
    requires a.service == Some("") && IdentityOf(a).Some? && Trim(a.alertname) == a.alertname
    requires inc.title == WebhookTitle(a) && inc.identity == IdentityOf(a)
    requires twin.title == WebhookTitle(a.(service := None)) && twin.cluster == inc.cluster && OpenToLookup(twin.status)
    ensures var title := TitleOf(inc.identity.value);
            && (forall r :: IsLookup(map["x" := inc], inc.cluster, title, r) ==> r == None)
            && (forall r :: IsLookup(map["x" := inc, "y" := twin], inc.cluster, title, r) ==> r == Some("y"))
  {
    TitlesAgree(a);
    TitlesAgree(a.(service := None));
    var alone, both := map["x" := inc], map["x" := inc, "y" := twin];
    assert "x" in alone && "x" in both && "y" in both;
    assert !OpenAs(inc, inc.cluster, TitleOf(inc.identity.value));
    assert OpenAs(both["y"], inc.cluster, TitleOf(inc.identity.value));
  }

  // ----- The store's history as runs

  function HappensTo(incidents: Incidents, step: Step, x: string): Happening {
    match step
    case Look(id, snapshot, env, found) =>
      if x == id then Examined(snapshot, env, found == Some(id))
      else if id in incidents && Confirms(incidents[id], snapshot, env) && found == Some(x) then Cleared(env)
      else Nothing
    case Webhook(id, env) => if x == id then Cleared(env) else Nothing
    case Move(id, status, identity, prometheus) => if x == id then Moved(status, identity, prometheus) else Nothing
    case Open(id, incident) => Nothing
  }

  // Every step of the store, in particular every look of a pass, is one happening to each incident.
  lemma StepHappens(incidents: Incidents, step: Step, x: string)
    requires Legal(incidents, step) && x in incidents
    ensures x in Next(incidents, step) && Next(incidents, step)[x] == Apply(incidents[x], HappensTo(incidents, step, x))
  {}

  // What a history is to one incident, step by step.
  function RunOf(incidents: Incidents, steps: seq<Step>, x: string): (run: seq<Happening>)
    ensures |run| == |steps|
  {
    if steps == [] then []
    else
      var init, last := steps[..|steps| - 1], steps[|steps| - 1];
      RunOf(incidents, init, x) + [HappensTo(World(incidents, init), last, x)]
  }

  lemma {:induction false} RunOfAt(incidents: Incidents, steps: seq<Step>, x: string, j: nat)
    requires j < |steps|
    ensures RunOf(incidents, steps, x)[j] == HappensTo(World(incidents, steps[..j]), steps[j], x)
  {
    var init := steps[..|steps| - 1];
    if j < |init| {
      RunOfAt(incidents, init, x, j);
      assert init[..j] == steps[..j];
    }
  }

  // The history of an incident that is there from the start is its run.
  lemma {:induction false} ProjectsPresent(incidents: Incidents, steps: seq<Step>, x: string)
    requires History(incidents, steps) && x in incidents
    ensures x in World(incidents, steps)
    ensures World(incidents, steps)[x] == After(incidents[x], RunOf(incidents, steps, x), |steps|)
  {
    if steps != [] {
      var init, last := steps[..|steps| - 1], steps[|steps| - 1];
      ProjectsPresent(incidents, init, x);
      StepHappens(World(incidents, init), last, x);
      AfterPrefix(incidents[x], RunOf(incidents, init, x), RunOf(incidents, steps, x), |init|);
    }
  }

  // A history can be cut anywhere.
  lemma {:induction false} HistorySplit(incidents: Incidents, steps: seq<Step>, n: nat)
    requires History(incidents, steps) && n <= |steps|
    ensures History(incidents, steps[..n]) && History(World(incidents, steps[..n]), steps[n..])
    ensures World(incidents, steps) == World(World(incidents, steps[..n]), steps[n..])
    decreases |steps|
  {
    if n == |steps| {
      assert steps[..n] == steps && steps[n..] == [];
    } else {
      var init := steps[..|steps| - 1];
      HistorySplit(incidents, init, n);
      assert init[..n] == steps[..n] && steps[n..][..|steps| - n - 1] == init[n..];
    }
  }

  // Where an incident's run begins: at the start of the history, or just after it was opened.
  lemma {:induction false} Begins(incidents: Incidents, steps: seq<Step>, x: string) returns (o: nat)
    requires History(incidents, steps) && x in World(incidents, steps)
    ensures o <= |steps| && x in World(incidents, steps[..o])
    ensures if x in incidents then o == 0
            else o > 0 && steps[o - 1].Open? && steps[o - 1].id == x && World(incidents, steps[..o])[x].timeline == []
    decreases |steps|
  {
    if x in incidents {
      o := 0;
      assert steps[..0] == [];
    } else {
      var init, last := steps[..|steps| - 1], steps[|steps| - 1];
      if x in World(incidents, init) {
        o := Begins(incidents, init, x);
        assert init[..o] == steps[..o];
      } else {
        o := |steps|;
        assert steps[..o] == steps;
      }
    }
  }

  // In every history each incident, whether it was there or opened on the way, goes through its run.
  lemma Projects(incidents: Incidents, steps: seq<Step>, x: string) returns (o: nat)
    requires History(incidents, steps) && x in World(incidents, steps)
    ensures o <= |steps| && (x in incidents ==> o == 0)
    ensures var base := World(incidents, steps[..o]);
            && x in base && (x !in incidents ==> base[x].timeline == [])
            && World(incidents, steps)[x] == After(base[x], RunOf(base, steps[o..], x), |steps| - o)
  {
    o := Begins(incidents, steps, x);
    HistorySplit(incidents, steps, o);
    ProjectsPresent(World(incidents, steps[..o]), steps[o..], x);
  }

  // Step j of the history is a look at the incident of the closing look, and its evidence.
  ghost predicate Backed(incidents: Incidents, steps: seq<Step>, step: Step, j: nat) {
    && step.Look? && step.id in incidents
    && j < |steps| && steps[j].Look? && steps[j].id == step.id
    && var run := RunOf(incidents, steps + [step], step.id);
       run[|steps|].Examined? && Supports(incidents[step.id], run, j, |steps|)
  }

  // Safety for an incident that is there from the start.
  lemma PresentSafe(incidents: Incidents, steps: seq<Step>, step: Step) returns (j: nat)
    requires History(incidents, steps) && step.Look? && step.id in incidents && incidents[step.id].timeline == []
    requires step.id in World(incidents, steps)
    requires Confirms(World(incidents, steps)[step.id], step.snapshot, step.env)
    ensures Backed(incidents, steps, step, j)
  {
    var x, n := step.id, |steps|;
    var run := RunOf(incidents, steps + [step], x);
    assert (steps + [step])[..n] == steps;
    ProjectsPresent(incidents, steps, x);
    AfterPrefix(incidents[x], RunOf(incidents, steps, x), run, n);
    j := MissedClearSafe(incidents[x], run, n);
    RunOfAt(incidents, steps, x, j);
  }

  // Safety of the store: in every history, from the empty store or from any in which the incident has
  // recorded nothing, a clear is confirmed only on the evidence of an earlier look at that very
  // incident, made since it was opened.
  lemma StoreSafe(incidents: Incidents, steps: seq<Step>, step: Step) returns (o: nat, j: nat)
    requires History(incidents, steps) && step.Look? && step.id in World(incidents, steps)
    requires step.id in incidents ==> incidents[step.id].timeline == []
    requires Confirms(World(incidents, steps)[step.id], step.snapshot, step.env)
    ensures o + j < |steps|
    ensures if step.id in incidents then o == 0 else o > 0 && steps[o - 1].Open? && steps[o - 1].id == step.id
    ensures Backed(World(incidents, steps[..o]), steps[o..], step, j)
  {
    o := Begins(incidents, steps, step.id);
    assert steps[..0] == [];
    HistorySplit(incidents, steps, o);
    j := PresentSafe(World(incidents, steps[..o]), steps[o..], step);
  }
}

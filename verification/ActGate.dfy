/**
 Gating a remediation plan into an ACT report: namespace scope, missing capability, unfit
 remedy, and the aggregate decision (src/sre_agent/act_phase.py, src/sre_agent/policy_gate.py,
 src/sre_agent/executor.py).
 */
module ActGate {
  import opened Results
  import opened Text

  datatype Decision = Autonomous | RequiresApproval | Blocked

  type Parameters = map<string, string>

  // An action's parameter dictionary, shared by reference with everything that holds it.
  class ParameterMap {
    var entries: Parameters

    constructor (m: Parameters)
      ensures entries == m
    {
      entries := m;
    }
  }

  datatype Action = Action(actionType: string, target: string, parameters: ParameterMap?)

  // The same action with its parameters read out; `None` when it has no dictionary.
  datatype Snapshot = Snapshot(actionType: string, target: string, parameters: Option<Parameters>)

  datatype Cause = Gate | OutOfScope | NoCapability | Unfit

  datatype Report = Report(
    actionType: string,
    target: string,
    namespace: string,
    parameters: Parameters,
    decision: Decision,
    cause: Cause)

  const EXECUTOR_TOOLS: set<string> :=
    {"restart", "scale", "rollback", "patch", "config_change", "recreate_pod", "inspect"}

  const CONFIG_INTENTS: set<string> := {"patch", "config_change"}

  const NOTIFY_ONLY: set<string> := {"escalate"}

  // What the diagnosis established, and which parameters name a resource limit or env change.
  datatype Facts = Facts(memoryLeak: bool, dependencyOutage: bool, carriesConfig: Parameters -> bool)

  // ----- Deciding one action

  function Given(params: Option<Parameters>): Parameters {
    match params
    case None => map[]
    case Some(m) => m
  }

  function Namespace(params: Option<Parameters>): string {
    var m := Given(params);
    if "namespace" in m then Trim(m["namespace"]) else ""
  }

  // Writing the cluster's namespace into parameters that name none.
  function ScopedMap(clusterNs: string, m: Parameters): Parameters {
    if clusterNs != "" && Namespace(Some(m)) == "" then m["namespace" := clusterNs] else m
  }

  function Scoped(clusterNs: string, params: Option<Parameters>): Option<Parameters> {
    match params
    case None => None
    case Some(m) => Some(ScopedMap(clusterNs, m))
  }

  predicate OutsideScope(clusterNs: string, params: Option<Parameters>) {
    clusterNs != "" && Namespace(params) != "" && Namespace(params) != clusterNs
  }

  // A live tool exists for the action; a config intent needs something to change.
  predicate HasLiveTool(actionType: string, params: Option<Parameters>, facts: Facts) {
    && Lower(actionType) in EXECUTOR_TOOLS
    && (Lower(actionType) in CONFIG_INTENTS ==> facts.carriesConfig(Given(params)))
  }

  predicate LacksCapability(actionType: string, params: Option<Parameters>, facts: Facts) {
    Lower(actionType) in EXECUTOR_TOOLS && !HasLiveTool(actionType, params, facts)
  }

  // The action cannot fix the diagnosed fault.
  predicate UnfitRemedy(actionType: string, params: Option<Parameters>, facts: Facts) {
    var name, m := Lower(actionType), Given(params);
    || (facts.dependencyOutage && name in {"restart", "rollback", "revert_commit", "scale"})
    || (facts.memoryLeak && name == "scale")
    || (facts.memoryLeak && name in CONFIG_INTENTS && "memory" in m && m["memory"] != "")
  }

  // The report of one action whose parameters were already scoped.
  function GateAction(clusterNs: string, action: Snapshot, decision: Decision, facts: Facts): Report {
    var m, ns := Given(action.parameters), Namespace(action.parameters);
    if OutsideScope(clusterNs, action.parameters) then
      Report(action.actionType, action.target, ns, m, Blocked, OutOfScope)
    else
      var named := if ns != "" then ns else if clusterNs != "" then clusterNs else "default";
      if LacksCapability(action.actionType, action.parameters, facts) then
        Report(action.actionType, action.target, named, m, Blocked, NoCapability)
      else if UnfitRemedy(action.actionType, action.parameters, facts) then
        Report(action.actionType, action.target, named, m, Blocked, Unfit)
      else
        Report(action.actionType, action.target, named, m, decision, Gate)
  }

  // ----- The aggregate

  // One blocked action blocks the plan; only an all-autonomous plan is autonomous.
  function Aggregate(decisions: seq<Decision>): Decision {
    if Blocked in decisions then Blocked
    else if decisions != [] && RequiresApproval !in decisions then Autonomous
    else RequiresApproval
  }

  // A plan that would ask for approval with nothing held falls back to what is left.
  function FinalAggregate(aggregate: Decision, reports: seq<Report>): Decision {
    var left := set i | 0 <= i < |reports| :: reports[i].decision;
    if aggregate == RequiresApproval && RequiresApproval !in left then
      if Autonomous in left then Autonomous else Blocked
    else aggregate
  }

  // ----- The report

  function Snap(a: Action): Snapshot
    reads if a.parameters == null then {} else {a.parameters}
  {
    Snapshot(a.actionType, a.target, if a.parameters == null then None else Some(a.parameters.entries))
  }

  function Dictionaries(actions: seq<Action>): set<ParameterMap> {
    set i | 0 <= i < |actions| && actions[i].parameters != null :: actions[i].parameters
  }

  function Snaps(actions: seq<Action>): seq<Snapshot>
    reads Dictionaries(actions)
  {
    seq(|actions|, i requires 0 <= i < |actions| reads Dictionaries(actions) => Snap(actions[i]))
  }

  function ScopedSnapshot(clusterNs: string, action: Snapshot): Snapshot {
    action.(parameters := Scoped(clusterNs, action.parameters))
  }

  // The reports and the plan the gate leaves behind, from the plan it was given.
  function GateReports(clusterNs: string, plan: seq<Snapshot>, decisions: seq<Decision>, facts: Facts): seq<Report>
    requires |decisions| == |plan|
  {
    seq(|plan|,
        i requires 0 <= i < |plan| => GateAction(clusterNs, ScopedSnapshot(clusterNs, plan[i]), decisions[i], facts))
  }

  function ScopedPlan(clusterNs: string, plan: seq<Snapshot>): seq<Snapshot> {
    seq(|plan|, i requires 0 <= i < |plan| => ScopedSnapshot(clusterNs, plan[i]))
  }

  lemma ScopedMapAgain(clusterNs: string)
    requires Trim(clusterNs) == clusterNs
    ensures forall m :: ScopedMap(clusterNs, ScopedMap(clusterNs, m)) == ScopedMap(clusterNs, m)
  {}

  lemma ScopedAgain(clusterNs: string, params: Option<Parameters>)
    requires Trim(clusterNs) == clusterNs
    ensures OutsideScope(clusterNs, params) ==> Scoped(clusterNs, params) == params
    ensures OutsideScope(clusterNs, Scoped(clusterNs, params)) <==> OutsideScope(clusterNs, params)
    ensures clusterNs != "" && !OutsideScope(clusterNs, params) && params.Some? ==>
              Namespace(Scoped(clusterNs, params)) == clusterNs
  {}

  function Held(action: Action): set<ParameterMap> {
    if action.parameters == null then {} else {action.parameters}
  }

  // Gates one action, writing the cluster's namespace into parameters that name none.
  method GateOne(action: Action, clusterNs: string, decision: Decision, facts: Facts) returns (rep: Report)
    requires Trim(clusterNs) == clusterNs
    modifies Held(action)
    ensures action.parameters != null ==>
            action.parameters.entries == ScopedMap(clusterNs, old(action.parameters.entries))
    ensures rep == GateAction(clusterNs, Snap(action), decision, facts)
  {
    ghost var before := Snap(action);
    ScopedAgain(clusterNs, before.parameters);
    var params := if action.parameters == null then None else Some(action.parameters.entries);
    if OutsideScope(clusterNs, params) {
      return Report(action.actionType, action.target, Namespace(params), Given(params), Blocked, OutOfScope);
    }
    if clusterNs != "" && Namespace(params) == "" && action.parameters != null {
      action.parameters.entries := action.parameters.entries["namespace" := clusterNs];
    }
    params := if action.parameters == null then None else Some(action.parameters.entries);
    var ns := if Namespace(params) != "" then Namespace(params) else if clusterNs != "" then clusterNs else "default";
    rep := Report(action.actionType, action.target, ns, Given(params), decision, Gate);
    if LacksCapability(action.actionType, params, facts) {
      rep := rep.(decision := Blocked, cause := NoCapability);
    } else if UnfitRemedy(action.actionType, params, facts) {
      rep := rep.(decision := Blocked, cause := Unfit);
    }
  }

  // Gates every action in order. Actions may share a parameter dictionary.
  method BuildActReport(actions: seq<Action>, decisions: seq<Decision>, rawNamespace: string, facts: Facts)
    returns (reports: seq<Report>, aggregate: Option<Decision>)
    requires |decisions| == |actions|
    modifies Dictionaries(actions)
    ensures reports == GateReports(Trim(rawNamespace), old(Snaps(actions)), decisions, facts)
    ensures Snaps(actions) == ScopedPlan(Trim(rawNamespace), old(Snaps(actions)))
    ensures aggregate == if actions == [] then None else Some(FinalAggregate(Aggregate(decisions), reports))
  {
    reports := [];
    if actions == [] {
      return [], None;
    }
    var clusterNs := Trim(rawNamespace);
    TrimTwice(rawNamespace);
    ScopedMapAgain(clusterNs);
    ghost var plan := Snaps(actions);
    for i := 0 to |actions|
      invariant reports == GateReports(clusterNs, plan, decisions, facts)[..i]
      invariant forall j :: 0 <= j < i && actions[j].parameters != null ==>
                  actions[j].parameters.entries == ScopedMap(clusterNs, old(actions[j].parameters.entries))
      invariant forall p :: p in Dictionaries(actions) ==>
                  p.entries == old(p.entries) || p.entries == ScopedMap(clusterNs, old(p.entries))
    {
      var rep := GateOne(actions[i], clusterNs, decisions[i], facts);
      assert rep == GateReports(clusterNs, plan, decisions, facts)[i] by {
        assert Snap(actions[i]) == ScopedSnapshot(clusterNs, plan[i]);
      }
      reports := reports + [rep];
    }
    assert forall i :: 0 <= i < |actions| ==> Snap(actions[i]) == ScopedSnapshot(clusterNs, plan[i]);
    aggregate := Some(FinalAggregate(Aggregate(decisions), reports));
  }

  // ----- Theorems

  // An action the gate may release: inside the cluster's namespace, with a live tool if it is
  // an executor action, and able to fix the diagnosed fault.
  ghost predicate Contained(clusterNs: string, action: Snapshot, facts: Facts) {
    && (clusterNs != "" && action.parameters.Some? ==> Namespace(action.parameters) == clusterNs)
    && (Lower(action.actionType) in EXECUTOR_TOOLS ==> HasLiveTool(action.actionType, action.parameters, facts))
    && !UnfitRemedy(action.actionType, action.parameters, facts)
  }

  // Reports stay aligned with the actions; a report is unblocked if and only if the policy did
  // not block the action and the action, as the gate leaves it, is contained. An unblocked report
  // names the cluster's namespace even where the action, having no parameter dictionary, names none.
  lemma GateContains(rawNamespace: string, plan: seq<Snapshot>, decisions: seq<Decision>, facts: Facts, i: nat)
    requires |decisions| == |plan| && i < |plan|
    ensures var clusterNs := Trim(rawNamespace);
            var reports, after := GateReports(clusterNs, plan, decisions, facts), ScopedPlan(clusterNs, plan);
            && |reports| == |after| == |plan|
            && reports[i].actionType == after[i].actionType == plan[i].actionType
            && reports[i].target == after[i].target == plan[i].target
            && reports[i].parameters == Given(after[i].parameters)
            && (reports[i].decision != Blocked <==> decisions[i] != Blocked && Contained(clusterNs, after[i], facts))
            && (reports[i].decision != Blocked ==> reports[i].decision == decisions[i])
            && (reports[i].decision != Blocked && clusterNs != "" ==>
                  && reports[i].namespace == clusterNs
                  && (Namespace(after[i].parameters) == clusterNs <==> plan[i].parameters.Some?))
  {
    TrimTwice(rawNamespace);
    ScopedAgain(Trim(rawNamespace), plan[i].parameters);
  }

  // Scoping touches nothing but a blank namespace, which becomes the cluster's.
  lemma ScopedKeeps(clusterNs: string, m: Parameters)
    ensures var scoped := Given(Scoped(clusterNs, Some(m)));
            && (forall k :: k != "namespace" ==> (k in scoped <==> k in m) && (k in m ==> scoped[k] == m[k]))
            && (clusterNs != "" && ("namespace" !in m || Trim(m["namespace"]) == "") ==>
                  "namespace" in scoped && scoped["namespace"] == clusterNs)
            && (clusterNs == "" || ("namespace" in m && Trim(m["namespace"]) != "") ==> scoped == m)
  {}

  // The remedies that cannot fix the diagnosed fault.
  ghost predicate Futile(name: string, m: Parameters, facts: Facts) {
    || (facts.dependencyOutage
        && (name == "restart" || name == "rollback" || name == "revert_commit" || name == "scale"))
    || (facts.memoryLeak && name == "scale")
    || (facts.memoryLeak && (name == "patch" || name == "config_change") && "memory" in m && m["memory"] != "")
  }

  // Why a report reads as it does, on the plan's own fields: a namespace other than the cluster's, a
  // config intent with nothing to change, a futile remedy, or else the policy's own decision.
  lemma GateCauses(rawNamespace: string, plan: seq<Snapshot>, decisions: seq<Decision>, facts: Facts, i: nat)
    requires |decisions| == |plan| && i < |plan|
    ensures var clusterNs, rep := Trim(rawNamespace), GateReports(Trim(rawNamespace), plan, decisions, facts)[i];
            var name, m := Lower(plan[i].actionType), Given(Scoped(clusterNs, plan[i].parameters));
            var named := "namespace" in Given(plan[i].parameters) && Trim(Given(plan[i].parameters)["namespace"]) != "";
            var outside := clusterNs != "" && named && Trim(Given(plan[i].parameters)["namespace"]) != clusterNs;
            var unable := (name == "patch" || name == "config_change") && !facts.carriesConfig(m);
            && rep.cause == (if outside then OutOfScope else if unable then NoCapability
                             else if Futile(name, m, facts) then Unfit else Gate)
            && rep.decision == (if rep.cause == Gate then decisions[i] else Blocked)
            && rep.namespace == (if named then Trim(Given(plan[i].parameters)["namespace"])
                                 else if clusterNs != "" then clusterNs else "default")
  {
    TrimTwice(rawNamespace);
    ScopedAgain(Trim(rawNamespace), plan[i].parameters);
  }

  // The final aggregate is blocked exactly when the policy blocked an action, or wanted approval with
  // every action blocked; it asks for approval exactly when nothing is blocked by policy and an action
  // is held; and it is autonomous in all other cases, even when every autonomous action was blocked.
  lemma AggregateMeans(decisions: seq<Decision>, reports: seq<Report>)
    requires |decisions| == |reports| && reports != []
    requires forall i :: 0 <= i < |reports| ==> reports[i].decision == decisions[i] || reports[i].decision == Blocked
    ensures var final := FinalAggregate(Aggregate(decisions), reports);
            var allBlocked := forall i :: 0 <= i < |reports| ==> reports[i].decision == Blocked;
            var held := exists i :: 0 <= i < |reports| && reports[i].decision == RequiresApproval;
            && (final == Blocked <==> Blocked in decisions || (RequiresApproval in decisions && allBlocked))
            && (final == RequiresApproval <==> Blocked !in decisions && held)
            && (final == Autonomous <==>
                  Blocked !in decisions && !held && !(RequiresApproval in decisions && allBlocked))
  {
    var left := set i | 0 <= i < |reports| :: reports[i].decision;
    forall i | 0 <= i < |reports| ensures reports[i].decision in left && decisions[i] in decisions {}
    assert RequiresApproval in left <==> exists i :: 0 <= i < |reports| && reports[i].decision == RequiresApproval;
    assert Autonomous in left <==> exists i :: 0 <= i < |reports| && reports[i].decision == Autonomous;
    assert decisions[0] in decisions;
  }
}

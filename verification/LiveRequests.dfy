/**
 From a gated plan to live action requests: target canonicalisation, removal of repeated
 mutations, and the notifications sent ahead of an approval (src/sre_agent/act_phase.py).
 */
module LiveRequests {
  import opened Results
  import opened Text
  import opened ActGate

  // What a request does, and so what makes two requests the same mutation.
  datatype Mutation = Mutation(actionType: string, target: string, parameters: Parameters)

  datatype Request = Request(index: nat, mutation: Mutation, decision: Decision)

  predicate NotifyOnly(actionType: string) { Lower(actionType) in NOTIFY_ONLY }

  // The mutation an action amounts to once an executor action is aimed at the alert's service.
  function MutationOf(action: Snapshot, service: string): Mutation {
    var target := if service != "" && action.actionType in EXECUTOR_TOOLS then service else action.target;
    Mutation(action.actionType, target, Given(action.parameters))
  }

  // The circumstances of one call of the builder.
  datatype Mode = Mode(approved: bool, notified: set<nat>, service: string)

  predicate Allowed(decision: Decision, approved: bool) {
    decision == Autonomous || (approved && decision == RequiresApproval)
  }

  // Action i is neither withheld nor an already delivered notification.
  predicate Eligible(plan: seq<Snapshot>, reports: seq<Report>, mode: Mode, i: nat)
    requires i < |plan| && i < |reports|
  {
    Allowed(reports[i].decision, mode.approved) && !(i in mode.notified && NotifyOnly(plan[i].actionType))
  }

  // ----- The builder as a specification

  // An eligible action is requested exactly when no earlier eligible action is the same mutation.
  ghost predicate Requested(plan: seq<Snapshot>, reports: seq<Report>, mode: Mode, i: nat)
    requires |plan| == |reports|
  {
    && i < |plan| && Eligible(plan, reports, mode, i)
    && forall j :: 0 <= j < i && Eligible(plan, reports, mode, j) ==>
         MutationOf(plan[j], mode.service) != MutationOf(plan[i], mode.service)
  }

  // The builder's output: one request for each requested index, in increasing order.
  ghost predicate Built(plan: seq<Snapshot>, reports: seq<Report>, mode: Mode, requests: seq<Request>)
    requires |plan| == |reports|
  {
    && (forall k :: 0 <= k < |requests| ==>
          && Requested(plan, reports, mode, requests[k].index)
          && requests[k].mutation == MutationOf(plan[requests[k].index], mode.service)
          && requests[k].decision == reports[requests[k].index].decision)
    && (forall k, l :: 0 <= k < l < |requests| ==> requests[k].index < requests[l].index)
    && (forall i :: 0 <= i < |plan| && Requested(plan, reports, mode, i) ==>
          exists k :: 0 <= k < |requests| && requests[k].index == i)
  }

  // Approval has been given where it is needed, and the action is no notification already delivered.
  ghost predicate Released(plan: seq<Snapshot>, reports: seq<Report>, mode: Mode, i: nat)
    requires i < |plan| && i < |reports|
  {
    && (reports[i].decision == Autonomous || (reports[i].decision == RequiresApproval && mode.approved))
    && (i in mode.notified ==> Lower(plan[i].actionType) != "escalate")
  }

  // The request is the action itself, aimed at the alert's service if it is an executor action and
  // the alert names one, and at its own target otherwise.
  ghost predicate Aimed(m: Mutation, action: Snapshot, service: string) {
    && m.actionType == action.actionType
    && m.parameters == (if action.parameters.Some? then action.parameters.value else map[])
    && (service != "" && action.actionType in EXECUTOR_TOOLS ==> m.target == service)
    && (service == "" || action.actionType !in EXECUTOR_TOOLS ==> m.target == action.target)
  }

  method BuildLiveActionRequests(plan: seq<Snapshot>, reports: seq<Report>, mode: Mode) returns (requests: seq<Request>)
    requires |plan| == |reports|
    ensures Built(plan, reports, mode, requests)
    ensures forall k :: 0 <= k < |requests| ==>
              && requests[k].index < |plan| && Released(plan, reports, mode, requests[k].index)
              && Aimed(requests[k].mutation, plan[requests[k].index], mode.service)
  {
    requests := [];
    var seen: map<Mutation, nat> := map[];
    for i := 0 to |plan|
      invariant forall m :: m in seen <==>
                  exists j :: 0 <= j < i && Eligible(plan, reports, mode, j) && MutationOf(plan[j], mode.service) == m
      invariant forall k :: 0 <= k < |requests| ==>
                  && requests[k].index < i
                  && Requested(plan, reports, mode, requests[k].index)
                  && requests[k].mutation == MutationOf(plan[requests[k].index], mode.service)
                  && requests[k].decision == reports[requests[k].index].decision
      invariant forall k, l :: 0 <= k < l < |requests| ==> requests[k].index < requests[l].index
      invariant forall j :: 0 <= j < i && Requested(plan, reports, mode, j) ==>
                  exists k :: 0 <= k < |requests| && requests[k].index == j
    {
      if !Allowed(reports[i].decision, mode.approved) {
        continue;
      }
      if i in mode.notified && NotifyOnly(plan[i].actionType) {
        continue;
      }
      assert Eligible(plan, reports, mode, i);
      var mutation := MutationOf(plan[i], mode.service);
      if mutation in seen {
        continue;
      }
      seen := seen[mutation := i];
      assert Requested(plan, reports, mode, i);
      ghost var earlier := requests;
      requests := requests + [Request(i, mutation, reports[i].decision)];
      assert forall k :: 0 <= k < |earlier| ==> requests[k] == earlier[k];
      assert requests[|earlier|].index == i;
    }
    BuiltAimed(plan, reports, mode, requests);
  }

  // ----- Theorems about the builder

  // No two requests are the same mutation.
  lemma MutationsDistinct(plan: seq<Snapshot>, reports: seq<Report>, mode: Mode, requests: seq<Request>, k: nat, l: nat)
    requires |plan| == |reports| && Built(plan, reports, mode, requests)
    requires k < l < |requests|
    ensures requests[k].mutation != requests[l].mutation
  {
    assert Requested(plan, reports, mode, requests[k].index) && Requested(plan, reports, mode, requests[l].index);
    assert requests[k].index < requests[l].index;
  }

  // The first eligible occurrence of an eligible action's mutation is requested.
  lemma {:induction false} Represented(plan: seq<Snapshot>, reports: seq<Report>, mode: Mode, i: nat)
    returns (first: nat)
    requires |plan| == |reports| && i < |plan| && Eligible(plan, reports, mode, i)
    ensures first <= i && Requested(plan, reports, mode, first)
    ensures MutationOf(plan[first], mode.service) == MutationOf(plan[i], mode.service)
  {
    var m := MutationOf(plan[i], mode.service);
    if exists j :: 0 <= j < i && Eligible(plan, reports, mode, j) && MutationOf(plan[j], mode.service) == m {
      var j :| 0 <= j < i && Eligible(plan, reports, mode, j) && MutationOf(plan[j], mode.service) == m;
      first := Represented(plan, reports, mode, j);
    } else {
      first := i;
    }
  }

  lemma AimedMeans(plan: seq<Snapshot>, reports: seq<Report>, mode: Mode)
    requires |plan| == |reports|
    ensures forall i: nat :: i < |plan| ==> (Released(plan, reports, mode, i) <==> Eligible(plan, reports, mode, i))
    ensures forall m, i :: 0 <= i < |plan| ==>
              (Aimed(m, plan[i], mode.service) <==> m == MutationOf(plan[i], mode.service))
  {}

  // Built requests are of released actions, each aimed as it should be.
  lemma BuiltAimed(plan: seq<Snapshot>, reports: seq<Report>, mode: Mode, requests: seq<Request>)
    requires |plan| == |reports| && Built(plan, reports, mode, requests)
    ensures forall k :: 0 <= k < |requests| ==>
              && requests[k].index < |plan| && Released(plan, reports, mode, requests[k].index)
              && Aimed(requests[k].mutation, plan[requests[k].index], mode.service)
  {
    AimedMeans(plan, reports, mode);
    forall k | 0 <= k < |requests|
      ensures && requests[k].index < |plan| && Released(plan, reports, mode, requests[k].index)
              && Aimed(requests[k].mutation, plan[requests[k].index], mode.service)
    {
      assert Requested(plan, reports, mode, requests[k].index);
    }
  }

  // Every released action is represented: the builder's output holds its mutation, under the index
  // of the first released action that amounts to it.
  lemma EligibleRepresented(plan: seq<Snapshot>, reports: seq<Report>, mode: Mode, requests: seq<Request>, i: nat)
    requires |plan| == |reports| && Built(plan, reports, mode, requests)
    requires i < |plan| && Released(plan, reports, mode, i)
    ensures exists k :: && 0 <= k < |requests| && requests[k].index <= i
                        && Aimed(requests[k].mutation, plan[i], mode.service)
                        && forall j :: 0 <= j < requests[k].index && Released(plan, reports, mode, j) ==>
                             !Aimed(requests[k].mutation, plan[j], mode.service)
  {
    AimedMeans(plan, reports, mode);
    var first := Represented(plan, reports, mode, i);
    var k :| 0 <= k < |requests| && requests[k].index == first;
    assert Requested(plan, reports, mode, requests[k].index);
  }

  // Executor actions that differ only in how the plan writes their target are one mutation under a
  // named service: only the first of them is requested.
  lemma OneForService(plan: seq<Snapshot>, reports: seq<Report>, mode: Mode, requests: seq<Request>, i: nat, j: nat)
    requires |plan| == |reports| && Built(plan, reports, mode, requests) && mode.service != ""
    requires i < j < |plan| && Released(plan, reports, mode, i)
    requires plan[i].actionType == plan[j].actionType && plan[i].actionType in EXECUTOR_TOOLS
    requires plan[i].parameters == plan[j].parameters
    ensures forall k :: 0 <= k < |requests| ==> requests[k].index != j
  {
    AimedMeans(plan, reports, mode);
    assert MutationOf(plan[i], mode.service) == MutationOf(plan[j], mode.service);
    forall k | 0 <= k < |requests| ensures requests[k].index != j {
      assert Requested(plan, reports, mode, requests[k].index);
    }
  }

  // Approval only adds mutations.
  lemma ApprovalEnlarges(plan: seq<Snapshot>, reports: seq<Report>, notified: set<nat>, service: string,
                         before: seq<Request>, after: seq<Request>, k: nat)
    requires |plan| == |reports| && k < |before|
    requires Built(plan, reports, Mode(false, notified, service), before)
    requires Built(plan, reports, Mode(true, notified, service), after)
    ensures exists l :: 0 <= l < |after| && after[l].mutation == before[k].mutation
  {
    var i := before[k].index;
    assert Requested(plan, reports, Mode(false, notified, service), i);
    var first := Represented(plan, reports, Mode(true, notified, service), i);
    var l :| 0 <= l < |after| && after[l].index == first;
    assert after[l].mutation == before[k].mutation;
  }

  // Containment across gate and builder: whatever was approved, every live request comes from an
  // action the gate left contained and the policy did not block, and carries its parameters. It
  // names the namespace its report names exactly when the action has a parameter dictionary.
  lemma RequestsContained(rawNamespace: string, plan: seq<Snapshot>, decisions: seq<Decision>, facts: Facts,
                          mode: Mode, requests: seq<Request>, k: nat)
    requires |decisions| == |plan| && k < |requests|
    requires Built(ScopedPlan(Trim(rawNamespace), plan), GateReports(Trim(rawNamespace), plan, decisions, facts), mode,
                   requests)
    ensures var clusterNs := Trim(rawNamespace);
            var i := requests[k].index;
            && i < |plan|
            && decisions[i] != Blocked && (decisions[i] == RequiresApproval ==> mode.approved)
            && Contained(clusterNs, ScopedPlan(clusterNs, plan)[i], facts)
            && Aimed(requests[k].mutation, ScopedPlan(clusterNs, plan)[i], mode.service)
            && requests[k].mutation.actionType == plan[i].actionType
            && (mode.service == "" || plan[i].actionType !in EXECUTOR_TOOLS ==>
                  requests[k].mutation.target == plan[i].target)
            && !Futile(Lower(plan[i].actionType), requests[k].mutation.parameters, facts)
            && GateReports(clusterNs, plan, decisions, facts)[i].decision != Blocked
            && (clusterNs != "" ==>
                  && GateReports(clusterNs, plan, decisions, facts)[i].namespace == clusterNs
                  && (Namespace(Some(requests[k].mutation.parameters)) == clusterNs <==> plan[i].parameters.Some?))
  {
    var clusterNs := Trim(rawNamespace);
    var after, reports := ScopedPlan(clusterNs, plan), GateReports(clusterNs, plan, decisions, facts);
    assert Requested(after, reports, mode, requests[k].index);
    GateContains(rawNamespace, plan, decisions, facts, requests[k].index);
  }

  // The gate and the builder run one after the other on a live plan.
  method ActAndBuild(actions: seq<Action>, decisions: seq<Decision>, rawNamespace: string, facts: Facts, mode: Mode)
    returns (reports: seq<Report>, requests: seq<Request>)
    requires |decisions| == |actions|
    modifies Dictionaries(actions)
    ensures |reports| == |actions| && Built(Snaps(actions), reports, mode, requests)
    ensures forall k :: 0 <= k < |requests| ==>
              && requests[k].index < |actions|
              && decisions[requests[k].index] != Blocked
              && Contained(Trim(rawNamespace), Snaps(actions)[requests[k].index], facts)
              && Aimed(requests[k].mutation, Snaps(actions)[requests[k].index], mode.service)
              && (Trim(rawNamespace) != "" ==>
                    (Namespace(Some(requests[k].mutation.parameters)) == Trim(rawNamespace)
                     <==> actions[requests[k].index].parameters != null))
  {
    var aggregate;
    ghost var plan := Snaps(actions);
    reports, aggregate := BuildActReport(actions, decisions, rawNamespace, facts);
    var after := Snaps(actions);
    requests := BuildLiveActionRequests(after, reports, mode);
    forall k | 0 <= k < |requests|
      ensures && requests[k].index < |actions|
              && decisions[requests[k].index] != Blocked
              && Contained(Trim(rawNamespace), after[requests[k].index], facts)
              && (Trim(rawNamespace) != "" ==>
                    (Namespace(Some(requests[k].mutation.parameters)) == Trim(rawNamespace)
                     <==> actions[requests[k].index].parameters != null))
    {
      RequestsContained(rawNamespace, plan, decisions, facts, mode, requests, k);
    }
  }

  // ----- Notifications ahead of an approval

  // Sends the notify-only requests of the unapproved plan; `delivers` tells whether sending
  // index i succeeds. Returns the indices that were tried and those that were delivered.
  method DeliverAheadOfApproval(plan: seq<Snapshot>, reports: seq<Report>, service: string, delivers: nat -> bool)
    returns (tried: seq<nat>, delivered: set<nat>)
    requires |plan| == |reports|
    ensures forall i: nat :: i in tried <==>
            Requested(plan, reports, Mode(false, {}, service), i) && Lower(plan[i].actionType) == "escalate"
    ensures forall k, l :: 0 <= k < l < |tried| ==> tried[k] < tried[l]
    ensures delivered == set i | i in tried && delivers(i)
  {
    var mode := Mode(false, {}, service);
    var requests := BuildLiveActionRequests(plan, reports, mode);
    tried, delivered := [], {};
    for k := 0 to |requests|
      invariant forall i: nat :: i in tried <==>
                  exists l :: 0 <= l < k && requests[l].index == i && NotifyOnly(requests[l].mutation.actionType)
      invariant forall a, b :: 0 <= a < b < |tried| ==> tried[a] < tried[b]
      invariant forall a :: 0 <= a < |tried| && k < |requests| ==> tried[a] < requests[k].index
      invariant delivered == set i | i in tried && delivers(i)
    {
      var i := requests[k].index;
      if NotifyOnly(requests[k].mutation.actionType) {
        tried := tried + [i];
        if delivers(i) {
          delivered := delivered + {i};
        }
      }
    }
    forall i: nat ensures i in tried <==> Requested(plan, reports, mode, i) && NotifyOnly(plan[i].actionType) {
      if i in tried {
        var l :| 0 <= l < |requests| && requests[l].index == i && NotifyOnly(requests[l].mutation.actionType);
      }
    }
  }

  // The notifications delivered before the approval, as the resume reads them back.
  ghost predicate Delivered(plan: seq<Snapshot>, reports: seq<Report>, service: string, delivered: set<nat>)
    requires |plan| == |reports|
  {
    forall i :: i in delivered ==>
      Requested(plan, reports, Mode(false, {}, service), i) && NotifyOnly(plan[i].actionType)
  }

  // Resuming after approval never requests a delivered index again.
  lemma NoIndexTwice(plan: seq<Snapshot>, reports: seq<Report>, service: string, delivered: set<nat>, i: nat)
    requires |plan| == |reports| && Delivered(plan, reports, service, delivered) && i in delivered
    ensures !Requested(plan, reports, Mode(true, delivered, service), i)
  {}

  ghost predicate SameNotice(plan: seq<Snapshot>, service: string, i: nat, j: nat)
    requires i < |plan| && j < |plan|
  {
    MutationOf(plan[i], service) == MutationOf(plan[j], service)
  }

  // Some notification delivered before the approval is sent again, under another index, after it.
  ghost predicate SentTwice(plan: seq<Snapshot>, reports: seq<Report>, service: string, delivered: set<nat>)
    requires |plan| == |reports|
  {
    exists i: nat, j: nat :: i in delivered && i < |plan| && j < |plan|
                   && Requested(plan, reports, Mode(true, delivered, service), j) && SameNotice(plan, service, i, j)
  }

  // The plan repeats a delivered notification in an action that approval leaves eligible.
  ghost predicate Repeats(plan: seq<Snapshot>, reports: seq<Report>, service: string, delivered: set<nat>)
    requires |plan| == |reports|
  {
    exists i: nat, j: nat :: i in delivered && i < |plan| && j < |plan| && j !in delivered
                   && Allowed(reports[j].decision, true) && SameNotice(plan, service, i, j)
  }

  // A notification is repeated after the approval exactly when the plan itself repeats it: the
  // already-delivered skip comes before the record of seen mutations.
  lemma SentTwiceIff(plan: seq<Snapshot>, reports: seq<Report>, service: string, delivered: set<nat>)
    requires |plan| == |reports| && Delivered(plan, reports, service, delivered)
    ensures SentTwice(plan, reports, service, delivered) <==> Repeats(plan, reports, service, delivered)
  {
    var mode := Mode(true, delivered, service);
    if SentTwice(plan, reports, service, delivered) {
      var i: nat, j: nat :|
        i in delivered && i < |plan| && j < |plan| && Requested(plan, reports, mode, j)
          && SameNotice(plan, service, i, j);
      if j in delivered {
        NoIndexTwice(plan, reports, service, delivered, j);
      }
      assert Allowed(reports[j].decision, true);
    }
    if Repeats(plan, reports, service, delivered) {
      var i: nat, j: nat :|
        i in delivered && i < |plan| && j < |plan| && j !in delivered && Allowed(reports[j].decision, true)
          && SameNotice(plan, service, i, j);
      assert Eligible(plan, reports, mode, j);
      var first := Represented(plan, reports, mode, j);
      assert SameNotice(plan, service, i, first);
    }
  }

  // The protocol around an approval: deliver what can be delivered, then build the approved run.
  method NotifyThenResume(plan: seq<Snapshot>, reports: seq<Report>, service: string, delivers: nat -> bool)
    returns (delivered: set<nat>, requests: seq<Request>)
    requires |plan| == |reports|
    ensures Delivered(plan, reports, service, delivered)
    ensures forall k :: 0 <= k < |requests| ==> requests[k].index !in delivered
    ensures !Repeats(plan, reports, service, delivered) ==>
              forall i, k :: i in delivered && i < |plan| && 0 <= k < |requests| ==>
                MutationOf(plan[i], service) != requests[k].mutation
  {
    var tried;
    tried, delivered := DeliverAheadOfApproval(plan, reports, service, delivers);
    requests := BuildLiveActionRequests(plan, reports, Mode(true, delivered, service));
    SentTwiceIff(plan, reports, service, delivered);
    forall k | 0 <= k < |requests| ensures requests[k].index !in delivered {
      if requests[k].index in delivered {
        NoIndexTwice(plan, reports, service, delivered, requests[k].index);
      }
    }
    if !Repeats(plan, reports, service, delivered) {
      forall i, k | i in delivered && i < |plan| && 0 <= k < |requests|
        ensures MutationOf(plan[i], service) != requests[k].mutation
      {
        assert SameNotice(plan, service, i, requests[k].index) ==> SentTwice(plan, reports, service, delivered);
      }
    }
  }

  // The smallest such plan: two identical escalations, the first delivered before the approval.
  lemma RepeatedEscalation(text: string)
    ensures var plan := [Snapshot("escalate", text, None), Snapshot("escalate", text, None)];
            var reports :=
              [Report("escalate", text, "default", map[], Autonomous, Gate),
               Report("escalate", text, "default", map[], Autonomous, Gate)];
            && Delivered(plan, reports, "", {0})
            && SentTwice(plan, reports, "", {0})
            && Requested(plan, reports, Mode(true, {0}, ""), 1)
  {
    var plan := [Snapshot("escalate", text, None), Snapshot("escalate", text, None)];
    var reports :=
      [Report("escalate", text, "default", map[], Autonomous, Gate),
       Report("escalate", text, "default", map[], Autonomous, Gate)];
    assert Lower("escalate") == "escalate";
    assert Eligible(plan, reports, Mode(false, {}, ""), 0);
    assert Requested(plan, reports, Mode(false, {}, ""), 0);
    assert !Eligible(plan, reports, Mode(true, {0}, ""), 0);
    assert SameNotice(plan, "", 0, 1);
  }
}

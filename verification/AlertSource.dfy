/**
 Classifying one alert from a Prometheus rule snapshot without turning doubt into a clear
 (src/sre_agent/alert_lifecycle_reconciler.py).
 */
module AlertSource {
  import opened Results
  import opened Text

  // One entry of a rule's instance list: malformed, or labels with or without a service.
  datatype Instance = NotAnObject | LabelsNotAnObject | Labelled(service: Option<string>)

  datatype Instances = Absent | NotAList | Listed(items: seq<Instance>)

  datatype Rule = Rule(name: string, health: string, alerts: Instances)

  datatype Snapshot = Snapshot(available: bool, rules: seq<Rule>)

  datatype Identity = Identity(alertname: string, service: string)

  datatype SourceState = Firing | Clear | Unavailable

  // What reading on through a rule's instances comes to at one of them.
  datatype Mark = Passed | Hit | Broken

  predicate Matches(service: Option<string>, identity: Identity) {
    identity.service == "unknown" || service.None? || service.value == identity.service
  }

  function MarkOf(i: Instance, identity: Identity): Mark {
    match i
    case NotAnObject => Broken
    case LabelsNotAnObject => Broken
    case Labelled(service) => if Matches(service, identity) then Hit else Passed
  }

  predicate Healthy(r: Rule) { Lower(r.health) == "ok" }

  function Matching(rules: seq<Rule>, name: string): seq<Rule> {
    if rules == [] then []
    else
      var init, last := rules[..|rules| - 1], rules[|rules| - 1];
      if last.name == name then Matching(init, name) + [last] else Matching(init, name)
  }

  // ----- The classification, declared

  // The marks of a rule in reading order; an instance field that is no list is one broken mark.
  function RuleMarks(r: Rule, identity: Identity): seq<Mark> {
    match r.alerts
    case Absent => []
    case NotAList => [Broken]
    case Listed(items) => seq(|items|, i requires 0 <= i < |items| => MarkOf(items[i], identity))
  }

  function Marks(rules: seq<Rule>, identity: Identity): seq<Mark> {
    if rules == [] then [] else Marks(rules[..|rules| - 1], identity) + RuleMarks(rules[|rules| - 1], identity)
  }

  // The first mark that is not passed over decides.
  function Verdict(marks: seq<Mark>): SourceState {
    if marks == [] then Clear
    else match marks[0]
      case Passed => Verdict(marks[1..])
      case Hit => Firing
      case Broken => Unavailable
  }

  function Classify(snapshot: Snapshot, identity: Identity): SourceState {
    var matching := Matching(snapshot.rules, identity.alertname);
    if !snapshot.available || matching == [] then Unavailable
    else if exists r :: r in matching && !Healthy(r) then Unavailable
    else Verdict(Marks(matching, identity))
  }

  // ----- The classifier, as the source runs it

  method MatchingRules(rules: seq<Rule>, name: string) returns (matching: seq<Rule>)
    ensures matching == Matching(rules, name)
  {
    matching := [];
    for i := 0 to |rules|
      invariant matching == Matching(rules[..i], name)
    {
      assert rules[..i + 1][..i] == rules[..i];
      if rules[i].name == name {
        matching := matching + [rules[i]];
      }
    }
    assert rules[..|rules|] == rules;
  }

  // Reads one rule's instances; stops at the first that is not passed over.
  method ReadRule(r: Rule, identity: Identity) returns (stop: Option<SourceState>)
    ensures stop.None? ==> AllPass(RuleMarks(r, identity))
    ensures stop.Some? ==> stop.value != Clear && Verdict(RuleMarks(r, identity)) == stop.value
  {
    match r.alerts
    case Absent => return None;
    case NotAList => return Some(Unavailable);
    case Listed(items) =>
      ghost var marks := RuleMarks(r, identity);
      for i := 0 to |items|
        invariant forall j :: 0 <= j < i ==> marks[j] == Passed
      {
        var active := items[i];
        if !active.Labelled? {
          FirstDecides(marks, i);
          return Some(Unavailable);
        }
        if identity.service == "unknown" || active.service.None? || active.service.value == identity.service {
          FirstDecides(marks, i);
          return Some(Firing);
        }
      }
      return None;
  }

  method ObserveAlertSource(snapshot: Snapshot, identity: Identity) returns (state: SourceState)
    ensures state == Classify(snapshot, identity)
  {
    if !snapshot.available {
      return Unavailable;
    }
    var matching := MatchingRules(snapshot.rules, identity.alertname);
    if matching == [] {
      return Unavailable;
    }
    if exists r :: r in matching && !Healthy(r) {
      return Unavailable;
    }
    for i := 0 to |matching|
      invariant AllPass(Marks(matching[..i], identity))
    {
      assert matching[..i + 1][..i] == matching[..i];
      var stop := ReadRule(matching[i], identity);
      if stop.Some? {
        PassedThen(Marks(matching[..i], identity), RuleMarks(matching[i], identity), stop.value);
        MarksPrefix(matching, i + 1, identity, stop.value);
        return stop.value;
      }
      PassedConcat(Marks(matching[..i], identity), RuleMarks(matching[i], identity));
    }
    assert matching[..|matching|] == matching;
    AllPassed(Marks(matching, identity));
    return Clear;
  }

  // ----- Lemmas about marks

  ghost predicate AllPass(marks: seq<Mark>) { forall i :: 0 <= i < |marks| ==> marks[i] == Passed }

  lemma PassedConcat(a: seq<Mark>, b: seq<Mark>)
    ensures AllPass(a + b) <==> AllPass(a) && AllPass(b)
  {
    if AllPass(a + b) {
      assert forall i :: 0 <= i < |a| ==> (a + b)[i] == a[i];
      assert forall i :: 0 <= i < |b| ==> (a + b)[|a| + i] == b[i];
    }
  }

  lemma {:induction false} FirstDecides(marks: seq<Mark>, i: nat)
    requires i < |marks| && marks[i] != Passed && forall j :: 0 <= j < i ==> marks[j] == Passed
    ensures Verdict(marks) == if marks[i] == Hit then Firing else Unavailable
  {
    if i > 0 {
      FirstDecides(marks[1..], i - 1);
    }
  }

  lemma {:induction false} AllPassed(marks: seq<Mark>)
    ensures Verdict(marks) == Clear <==> AllPass(marks)
  {
    if marks != [] {
      AllPassed(marks[1..]);
      assert AllPass(marks) <==> marks[0] == Passed && AllPass(marks[1..]) by {
        PassedConcat([marks[0]], marks[1..]);
        assert marks == [marks[0]] + marks[1..];
      }
    }
  }

  lemma {:induction false} PassedThen(a: seq<Mark>, b: seq<Mark>, state: SourceState)
    requires AllPass(a) && Verdict(b) == state
    ensures Verdict(a + b) == state
  {
    if a == [] {
      assert a + b == b;
    } else {
      assert a[0] == Passed && AllPass(a[1..]);
      assert (a + b)[1..] == a[1..] + b;
      PassedThen(a[1..], b, state);
    }
  }

  lemma {:induction false} DecidedThen(a: seq<Mark>, b: seq<Mark>)
    requires Verdict(a) != Clear
    ensures Verdict(a + b) == Verdict(a)
  {
    assert (a + b)[1..] == a[1..] + b;
    if a[0] == Passed {
      DecidedThen(a[1..], b);
    }
  }

  // Rules after a decided prefix change nothing.
  lemma {:induction false} MarksPrefix(rules: seq<Rule>, n: nat, identity: Identity, state: SourceState)
    requires n <= |rules| && Verdict(Marks(rules[..n], identity)) == state && state != Clear
    ensures Verdict(Marks(rules, identity)) == state
    decreases |rules| - n
  {
    if n < |rules| {
      assert rules[..n + 1][..n] == rules[..n];
      DecidedThen(Marks(rules[..n], identity), RuleMarks(rules[n], identity));
      MarksPrefix(rules, n + 1, identity, state);
    } else {
      assert rules[..n] == rules;
    }
  }

  // ----- What the states mean

  // A well-formed instance of the identity's service; an identity or an instance without a service
  // stands for every service.
  ghost predicate Fires(i: Instance, identity: Identity) {
    i.Labelled? && (identity.service == "unknown" || i.service == None || i.service == Some(identity.service))
  }

  // A well-formed instance of another service.
  ghost predicate PassedOver(i: Instance, identity: Identity) {
    i.Labelled? && identity.service != "unknown" && i.service != None && i.service != Some(identity.service)
  }

  // A rule without an instance list, or with nothing in it but instances of other services.
  ghost predicate Quiet(r: Rule, identity: Identity) {
    match r.alerts
    case Absent => true
    case NotAList => false
    case Listed(items) => forall i :: 0 <= i < |items| ==> PassedOver(items[i], identity)
  }

  lemma {:induction false} MatchingMembers(rules: seq<Rule>, name: string, r: Rule)
    ensures r in Matching(rules, name) <==> r in rules && r.name == name
  {
    if rules != [] {
      MatchingMembers(rules[..|rules| - 1], name, r);
      assert rules == rules[..|rules| - 1] + [rules[|rules| - 1]];
    }
  }

  lemma QuietMarks(r: Rule, identity: Identity)
    ensures Quiet(r, identity) <==> AllPass(RuleMarks(r, identity))
  {
    match r.alerts
    case Absent =>
    case NotAList => assert RuleMarks(r, identity)[0] == Broken;
    case Listed(items) =>
      var marks := RuleMarks(r, identity);
      assert forall i :: 0 <= i < |items| ==>
        (marks[i] == Passed <==> PassedOver(items[i], identity));
  }

  lemma {:induction false} MarksQuiet(rules: seq<Rule>, identity: Identity)
    ensures AllPass(Marks(rules, identity)) <==> forall r :: r in rules ==> Quiet(r, identity)
  {
    if rules != [] {
      var init, last := rules[..|rules| - 1], rules[|rules| - 1];
      MarksQuiet(init, identity);
      QuietMarks(last, identity);
      assert rules == init + [last];
      PassedConcat(Marks(init, identity), RuleMarks(last, identity));
    }
  }

  ghost predicate ShowsClear(snapshot: Snapshot, identity: Identity) {
    && snapshot.available
    && (exists r :: r in snapshot.rules && r.name == identity.alertname)
    && (forall r :: r in snapshot.rules && r.name == identity.alertname ==>
          Lower(r.health) == "ok" && Quiet(r, identity))
  }

  // The alert is called clear exactly when the snapshot arrived, a rule of that name exists, all
  // such rules are healthy, and none has a matching or malformed instance.
  lemma ClearMeans(snapshot: Snapshot, identity: Identity)
    ensures Classify(snapshot, identity) == Clear <==> ShowsClear(snapshot, identity)
  {
    var matching := Matching(snapshot.rules, identity.alertname);
    forall r ensures r in matching <==> r in snapshot.rules && r.name == identity.alertname {
      MatchingMembers(snapshot.rules, identity.alertname, r);
    }
    assert matching != [] <==> exists r :: r in matching by {
      assert matching != [] ==> matching[0] in matching;
    }
    MarksQuiet(matching, identity);
    AllPassed(Marks(matching, identity));
  }

  // ----- Firing

  // Instance j of rule i fires, and everything read before it, in the rules of that name, is passed over.
  ghost predicate FirstHit(rules: seq<Rule>, identity: Identity, i: int, j: int) {
    && 0 <= i < |rules| && rules[i].name == identity.alertname
    && HitAt(rules[i], identity, j)
    && forall k :: 0 <= k < i && rules[k].name == identity.alertname ==> Quiet(rules[k], identity)
  }

  ghost predicate HitAt(r: Rule, identity: Identity, j: int) {
    && r.alerts.Listed? && 0 <= j < |r.alerts.items| && Fires(r.alerts.items[j], identity)
    && forall k :: 0 <= k < j ==> PassedOver(r.alerts.items[k], identity)
  }

  ghost predicate Hits(rules: seq<Rule>, identity: Identity) { exists i, j :: FirstHit(rules, identity, i, j) }

  ghost predicate ShowsFiring(snapshot: Snapshot, identity: Identity) {
    && snapshot.available
    && (forall r :: r in snapshot.rules && r.name == identity.alertname ==> Lower(r.health) == "ok")
    && Hits(snapshot.rules, identity)
  }

  lemma {:induction false} VerdictHit(marks: seq<Mark>)
    ensures Verdict(marks) == Firing <==>
            exists j :: 0 <= j < |marks| && marks[j] == Hit && forall k :: 0 <= k < j ==> marks[k] == Passed
  {
    if marks != [] {
      VerdictHit(marks[1..]);
      if Verdict(marks) == Firing && marks[0] == Passed {
        var j :| 0 <= j < |marks[1..]| && marks[1..][j] == Hit && forall k :: 0 <= k < j ==> marks[1..][k] == Passed;
        assert marks[j + 1] == Hit && forall k :: 0 <= k < j + 1 ==> marks[k] == Passed by {
          assert forall k :: 0 < k < j + 1 ==> marks[k] == marks[1..][k - 1];
        }
      } else if Verdict(marks) == Firing {
        assert marks[0] == Hit;
      }
      forall j | 0 <= j < |marks| && marks[j] == Hit && forall k :: 0 <= k < j ==> marks[k] == Passed
        ensures Verdict(marks) == Firing
      {
        FirstDecides(marks, j);
      }
    }
  }

  lemma RuleHits(r: Rule, identity: Identity)
    ensures Verdict(RuleMarks(r, identity)) == Firing <==> exists j :: HitAt(r, identity, j)
  {
    var marks := RuleMarks(r, identity);
    VerdictHit(marks);
    if r.alerts.Listed? {
      var items := r.alerts.items;
      assert forall j :: 0 <= j < |items| ==> (marks[j] == Hit <==> Fires(items[j], identity));
      assert forall j :: 0 <= j < |items| ==> (marks[j] == Passed <==> PassedOver(items[j], identity));
      if Verdict(marks) == Firing {
        var j :| 0 <= j < |marks| && marks[j] == Hit && forall k :: 0 <= k < j ==> marks[k] == Passed;
        assert HitAt(r, identity, j);
      }
    }
  }

  ghost predicate AllQuiet(rules: seq<Rule>, identity: Identity) {
    forall k :: 0 <= k < |rules| && rules[k].name == identity.alertname ==> Quiet(rules[k], identity)
  }

  lemma HitsMore(rules: seq<Rule>, last: Rule, identity: Identity)
    ensures Hits(rules + [last], identity) <==>
            || Hits(rules, identity)
            || (last.name == identity.alertname && (exists j :: HitAt(last, identity, j)) && AllQuiet(rules, identity))
  {
    var more := rules + [last];
    assert forall k :: 0 <= k < |rules| ==> more[k] == rules[k];
    if Hits(more, identity) {
      var i, j :| FirstHit(more, identity, i, j);
      if i < |rules| { assert FirstHit(rules, identity, i, j); }
    }
    if Hits(rules, identity) {
      var i, j :| FirstHit(rules, identity, i, j);
      assert FirstHit(more, identity, i, j);
    }
    if last.name == identity.alertname && (exists j :: HitAt(last, identity, j)) && AllQuiet(rules, identity) {
      var j :| HitAt(last, identity, j);
      assert FirstHit(more, identity, |rules|, j);
    }
  }

  lemma VerdictAfter(a: seq<Mark>, b: seq<Mark>)
    ensures Verdict(a + b) == if AllPass(a) then Verdict(b) else Verdict(a)
  {
    AllPassed(a);
    if AllPass(a) { PassedThen(a, b, Verdict(b)); } else { DecidedThen(a, b); }
  }

  lemma {:induction false} MarksHit(rules: seq<Rule>, identity: Identity)
    ensures Verdict(Marks(Matching(rules, identity.alertname), identity)) == Firing <==> Hits(rules, identity)
    ensures AllPass(Marks(Matching(rules, identity.alertname), identity)) <==> AllQuiet(rules, identity)
  {
    if rules == [] {
      assert !Hits(rules, identity);
    } else {
      var init, last := rules[..|rules| - 1], rules[|rules| - 1];
      var before := Matching(init, identity.alertname);
      assert rules == init + [last];
      MarksHit(init, identity);
      HitsMore(init, last, identity);
      AllPassed(Marks(before, identity));
      if last.name == identity.alertname {
        assert (before + [last])[..|before|] == before;
        VerdictAfter(Marks(before, identity), RuleMarks(last, identity));
        PassedConcat(Marks(before, identity), RuleMarks(last, identity));
        RuleHits(last, identity);
        QuietMarks(last, identity);
      }
    }
  }

  // The alert is called firing exactly when the snapshot arrived, all rules of that name are healthy,
  // and in reading order an instance of the alert's service comes before anything malformed.
  lemma FiringMeans(snapshot: Snapshot, identity: Identity)
    ensures Classify(snapshot, identity) == Firing <==> ShowsFiring(snapshot, identity)
  {
    var matching := Matching(snapshot.rules, identity.alertname);
    forall r ensures r in matching <==> r in snapshot.rules && r.name == identity.alertname {
      MatchingMembers(snapshot.rules, identity.alertname, r);
    }
    MarksHit(snapshot.rules, identity);
    if Hits(snapshot.rules, identity) {
      var i, j :| FirstHit(snapshot.rules, identity, i, j);
      assert snapshot.rules[i] in matching;
    }
  }

  // Everything else is doubt, and doubt is never called firing or clear.
  lemma UnavailableMeans(snapshot: Snapshot, identity: Identity)
    ensures Classify(snapshot, identity) == Unavailable <==>
            !ShowsClear(snapshot, identity) && !ShowsFiring(snapshot, identity)
    ensures !(ShowsClear(snapshot, identity) && ShowsFiring(snapshot, identity))
  {
    ClearMeans(snapshot, identity);
    FiringMeans(snapshot, identity);
  }
}

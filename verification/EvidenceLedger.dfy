/**
 The severity evidence ledger: metrics absorbed source after source, with the links that say
 where each value came from (src/sre_agent/act_phase.py).
 */
module EvidenceLedger {
  import opened Results

  type Metric = string

  datatype Value = Number(n: real) | Flag(b: bool) | Scope(s: string)

  datatype Link = Link(field: string, value: Option<Value>, source: string, unknown: bool)

  // One discovered observation, under whatever name and in whatever form its source used.
  datatype Finding = Finding(name: string, raw: string, path: string)

  // The evidence contract: which names mean which metric, and what a raw value coerces to.
  datatype Contract = Contract(
    metrics: seq<Metric>,
    canonical: string -> Option<Metric>,
    coerce: (Metric, string) -> Option<Value>)
  {
    ghost predicate DistinctMetrics() {
      forall i, j :: 0 <= i < j < |metrics| ==> metrics[i] != metrics[j]
    }

    // The metric and value a finding contributes, if it is a usable measurement.
    function Usable(f: Finding): Option<(Metric, Value)> {
      match canonical(f.name)
      case None => None
      case Some(key) =>
        match coerce(key, f.raw)
        case None => None
        case Some(v) => Some((key, v))
    }
  }

  type Measured = map<Metric, Option<Value>>

  predicate KnownFor(link: Link, key: Metric) { link.field == key && !link.unknown }

  // The links that speak for a metric.
  function Known(links: seq<Link>, key: Metric): seq<Link> {
    if links == [] then []
    else
      var last, earlier := links[|links| - 1], Known(links[..|links| - 1], key);
      if KnownFor(last, key) then earlier + [last] else earlier
  }

  // The list without its known links for a metric.
  function Without(links: seq<Link>, key: Metric): seq<Link> {
    if links == [] then []
    else
      var last, earlier := links[|links| - 1], Without(links[..|links| - 1], key);
      if KnownFor(last, key) then earlier else earlier + [last]
  }

  // `list.remove`: drops the first equal element.
  function RemoveFirst(links: seq<Link>, link: Link): seq<Link> {
    if links == [] then []
    else if links[0] == link then links[1..]
    else [links[0]] + RemoveFirst(links[1..], link)
  }

  lemma {:induction false} RemoveFromHead(a: seq<Link>, b: seq<Link>, link: Link)
    requires link in a
    ensures RemoveFirst(a + b, link) == RemoveFirst(a, link) + b
  {
    assert (a + b)[1..] == a[1..] + b;
    if a[0] != link {
      RemoveFromHead(a[1..], b, link);
    }
  }

  lemma {:induction false} RemoveFromTail(a: seq<Link>, b: seq<Link>, link: Link)
    requires link !in a
    ensures RemoveFirst(a + b, link) == a + RemoveFirst(b, link)
  {
    if a == [] {
      assert a + b == b;
    } else {
      assert (a + b)[1..] == a[1..] + b;
      RemoveFromTail(a[1..], b, link);
      assert a[0] != link;
    }
  }

  // ----- The ledger's invariant

  // Known links of a metric: none when it was not measured by a source, else one, with the
  // measured value.
  ghost predicate Agrees(measured: Measured, links: seq<Link>, key: Metric)
    requires key in measured
  {
    var known := Known(links, key);
    || known == []
    || (|known| == 1 && measured[key].Some? && known[0].value == measured[key])
  }

  lemma KnownAppend(links: seq<Link>, link: Link, key: Metric)
    ensures Known(links + [link], key) == if KnownFor(link, key) then Known(links, key) + [link] else Known(links, key)
  {
    assert (links + [link])[..|links|] == links;
  }

  lemma {:induction false} WithoutKnown(links: seq<Link>, key: Metric, other: Metric)
    ensures Known(Without(links, key), other) == if other == key then [] else Known(links, other)
  {
    if links != [] {
      var last, earlier := links[|links| - 1], links[..|links| - 1];
      WithoutKnown(earlier, key, other);
      if !KnownFor(last, key) {
        KnownAppend(Without(earlier, key), last, other);
      }
    }
  }

  lemma WithoutAppend(links: seq<Link>, link: Link, key: Metric)
    ensures Without(links + [link], key) == if KnownFor(link, key) then Without(links, key)
            else Without(links, key) + [link]
  {
    assert (links + [link])[..|links|] == links;
  }

  lemma {:induction false} KnownMembers(links: seq<Link>, key: Metric, link: Link)
    ensures link in Known(links, key) <==> link in links && KnownFor(link, key)
  {
    if links != [] {
      KnownMembers(links[..|links| - 1], key, link);
      assert links == links[..|links| - 1] + [links[|links| - 1]];
    }
  }

  lemma {:induction false} NothingKnown(links: seq<Link>, key: Metric)
    requires Known(links, key) == []
    ensures Without(links, key) == links
  {
    if links != [] {
      NothingKnown(links[..|links| - 1], key);
    }
  }

  lemma RemoveLast(init: seq<Link>, last: Link, key: Metric)
    requires Known(init, key) == [] && KnownFor(last, key)
    ensures RemoveFirst(init + [last], last) == init
  {
    KnownMembers(init, key, last);
    RemoveFromTail(init, [last], last);
    assert init + [] == init;
  }

  lemma RemoveEarlier(init: seq<Link>, last: Link, link: Link, key: Metric)
    requires link in Known(init, key)
    ensures RemoveFirst(init + [last], link) == RemoveFirst(init, link) + [last]
  {
    KnownMembers(init, key, link);
    RemoveFromHead(init, [last], link);
  }

  // Removing the first known link by value removes that very link: an equal one would be known too.
  lemma {:induction false} RemoveKnown(links: seq<Link>, key: Metric)
    requires Known(links, key) != []
    ensures var rest := RemoveFirst(links, Known(links, key)[0]);
            Known(rest, key) == Known(links, key)[1..] && Without(rest, key) == Without(links, key)
  {
    var init, last, link := links[..|links| - 1], links[|links| - 1], Known(links, key)[0];
    assert links == init + [last];
    KnownAppend(init, last, key);
    WithoutAppend(init, last, key);
    if Known(init, key) == [] {
      RemoveLast(init, last, key);
    } else {
      assert link == Known(init, key)[0];
      RemoveKnown(init, key);
      RemoveEarlier(init, last, link, key);
      KnownAppend(RemoveFirst(init, link), last, key);
      WithoutAppend(RemoveFirst(init, link), last, key);
    }
  }

  // ----- Absorbing as a fold

  function LinkOf(key: Metric, v: Value, prefix: string, f: Finding): Link {
    Link(key, Some(v), prefix + ":" + f.path, false)
  }

  function AbsorbedValues(c: Contract, measured: Measured, findings: seq<Finding>): Measured {
    if findings == [] then measured
    else
      var earlier := AbsorbedValues(c, measured, findings[..|findings| - 1]);
      match c.Usable(findings[|findings| - 1])
      case None => earlier
      case Some((key, v)) => earlier[key := Some(v)]
  }

  function AbsorbedLinks(c: Contract, links: seq<Link>, findings: seq<Finding>, prefix: string): seq<Link> {
    if findings == [] then links
    else
      var f, earlier := findings[|findings| - 1], AbsorbedLinks(c, links, findings[..|findings| - 1], prefix);
      match c.Usable(f)
      case None => earlier
      case Some((key, v)) => Without(earlier, key) + [LinkOf(key, v, prefix, f)]
  }

  ghost predicate Tracks(c: Contract, measured: Measured, links: seq<Link>) {
    forall key :: key in c.metrics ==> key in measured && Agrees(measured, links, key)
  }

  lemma TracksAfterOne(c: Contract, measured: Measured, links: seq<Link>, key: Metric, link: Link)
    requires Tracks(c, measured, links) && KnownFor(link, key) && link.value.Some?
    ensures Tracks(c, measured[key := link.value], Without(links, key) + [link])
  {
    var after := Without(links, key) + [link];
    forall other | other in c.metrics
      ensures other in measured[key := link.value] && Agrees(measured[key := link.value], after, other) {
      assert Agrees(measured, links, other);
      WithoutKnown(links, key, other);
      KnownAppend(Without(links, key), link, other);
    }
  }

  // One affected service, on the word of the alert's own label.
  function AffectedLink(service: string): Link {
    Link("affected_services", Some(Number(1.0)), "alert_label:service=" + service, false)
  }

  // ----- The ledger

  class Ledger {
    const contract: Contract
    var measured: Measured
    var links: seq<Link>

    // Starts from what alert labels say, with no link for any metric.
    constructor (c: Contract, labelled: Measured, others: seq<Link>)
      requires forall key :: key in c.metrics ==> key in labelled && Known(others, key) == []
      ensures contract == c && measured == labelled && links == others
      ensures Valid()
    {
      contract, measured, links := c, labelled, others;
    }

    ghost predicate Valid()
      reads this
    {
      Tracks(contract, measured, links)
    }

    // Drops the known links of a metric one by one, as `list.remove` does.
    method Supersede(key: Metric)
      modifies `links
      ensures links == Without(old(links), key)
    {
      var superseded := Known(links, key);
      for i := 0 to |superseded|
        invariant Known(links, key) == superseded[i..]
        invariant Without(links, key) == Without(old(links), key)
      {
        RemoveKnown(links, key);
        links := RemoveFirst(links, superseded[i]);
      }
      NothingKnown(links, key);
    }

    // Folds one source in; a later source supersedes an earlier one and takes its link with it.
    method Absorb(findings: seq<Finding>, prefix: string)
      requires Valid()
      modifies this
      ensures Valid()
      ensures measured == AbsorbedValues(contract, old(measured), findings)
      ensures links == AbsorbedLinks(contract, old(links), findings, prefix)
    {
      for i := 0 to |findings|
        invariant Valid()
        invariant measured == AbsorbedValues(contract, old(measured), findings[..i])
        invariant links == AbsorbedLinks(contract, old(links), findings[..i], prefix)
      {
        assert findings[..i + 1][..i] == findings[..i];
        match contract.Usable(findings[i])
        case None =>
        case Some((key, v)) =>
          var link := LinkOf(key, v, prefix, findings[i]);
          TracksAfterOne(contract, measured, links, key, link);
          Supersede(key);
          measured := measured[key := Some(v)];
          links := links + [link];
      }
      assert findings[..|findings|] == findings;
    }

    // The closing loop: an unknown link for what nobody measured, a label link for what only
    // the alert supplied, and one affected service when the alert names one.
    method Close(service: string)
      requires Valid() && contract.DistinctMetrics()
      modifies this
      ensures measured ==
              if "affected_services" in old(measured) && old(measured)["affected_services"].None? && service != ""
              then old(measured)["affected_services" := Some(Number(1.0))] else old(measured)
      ensures forall key :: key in contract.metrics ==> key in measured && Settled(measured, links, key)
      ensures old(links) <= links
      ensures forall key :: key in contract.metrics ==> Explained(old(measured), old(links), links, key)
      ensures "affected_services" in contract.metrics && old(measured)["affected_services"].None? && service != ""
              ==> Known(links, "affected_services") == [AffectedLink(service)]
    {
      var metrics := contract.metrics;
      ghost var start := links;
      for i := 0 to |metrics|
        invariant measured == old(measured) && Closing(measured, start, links, metrics, i)
      {
        var key := metrics[i];
        ghost var before := links;
        if measured[key].None? {
          links := links + [Link(key, None, "missing", true)];
        } else if Known(links, key) == [] {
          links := links + [Link(key, measured[key], "alert_labels_or_annotations", false)];
        }
        ClosingStep(measured, start, before, metrics, i, links);
      }
      ClosingEnds(measured, start, links, metrics);
      if "affected_services" in measured && measured["affected_services"].None? && service != "" {
        AffectedAdded(measured, start, links, metrics, service);
        measured := measured["affected_services" := AffectedLink(service).value];
        links := links + [AffectedLink(service)];
      }
    }
  }

  // The metrics before i are accounted for, and nothing was done about the others.
  ghost predicate Closing(measured: Measured, start: seq<Link>, links: seq<Link>, metrics: seq<Metric>, i: nat) {
    && start <= links && i <= |metrics|
    && (forall j :: 0 <= j < i ==> Reckoned(measured, start, links, metrics[j]))
    && (forall j :: i <= j < |metrics| ==> Untouched(measured, start, links, metrics[j]))
  }

  ghost predicate Reckoned(measured: Measured, start: seq<Link>, links: seq<Link>, key: Metric) {
    key in measured && Settled(measured, links, key) && Explained(measured, start, links, key)
  }

  ghost predicate Untouched(measured: Measured, start: seq<Link>, links: seq<Link>, key: Metric) {
    key in measured && Agrees(measured, links, key) && Known(links, key) == Known(start, key)
  }

  // A link for one metric leaves the others as they were.
  lemma OthersStay(measured: Measured, start: seq<Link>, links: seq<Link>, link: Link, key: Metric)
    requires link.field != key
    ensures Reckoned(measured, start, links, key) ==> Reckoned(measured, start, links + [link], key)
    ensures Untouched(measured, start, links, key) ==> Untouched(measured, start, links + [link], key)
  {
    KnownAppend(links, link, key);
  }

  lemma OneClosed(measured: Measured, start: seq<Link>, links: seq<Link>, key: Metric, more: seq<Link>)
    requires Untouched(measured, start, links, key)
    requires more == if measured[key].None? then links + [Link(key, None, "missing", true)]
                     else if Known(links, key) == [] then
                       links + [Link(key, measured[key], "alert_labels_or_annotations", false)]
                     else links
    ensures Reckoned(measured, start, more, key)
  {
    if more != links {
      KnownAppend(links, more[|links|], key);
      assert more[|links|] in more;
    }
  }

  lemma ClosingStep(measured: Measured, start: seq<Link>, links: seq<Link>, metrics: seq<Metric>, i: nat,
                    more: seq<Link>)
    requires Closing(measured, start, links, metrics, i) && i < |metrics|
    requires forall j, k :: 0 <= j < k < |metrics| ==> metrics[j] != metrics[k]
    requires more == if measured[metrics[i]].None? then links + [Link(metrics[i], None, "missing", true)]
                     else if Known(links, metrics[i]) == [] then
                       links + [Link(metrics[i], measured[metrics[i]], "alert_labels_or_annotations", false)]
                     else links
    ensures Closing(measured, start, more, metrics, i + 1)
  {
    OneClosed(measured, start, links, metrics[i], more);
    forall j | 0 <= j < |metrics| && j != i && more != links
      ensures Reckoned(measured, start, links, metrics[j]) ==> Reckoned(measured, start, more, metrics[j])
      ensures Untouched(measured, start, links, metrics[j]) ==> Untouched(measured, start, more, metrics[j])
    {
      assert more == links + [more[|links|]];
      OthersStay(measured, start, links, more[|links|], metrics[j]);
    }
  }

  lemma ClosingEnds(measured: Measured, start: seq<Link>, links: seq<Link>, metrics: seq<Metric>)
    requires Closing(measured, start, links, metrics, |metrics|)
    ensures start <= links && forall key :: key in metrics ==> Reckoned(measured, start, links, key)
  {}

  // The alert's own affected service replaces nothing.
  lemma AffectedAdded(measured: Measured, start: seq<Link>, links: seq<Link>, metrics: seq<Metric>, service: string)
    requires "affected_services" in measured && measured["affected_services"].None?
    requires forall key :: key in metrics ==> Reckoned(measured, start, links, key)
    ensures var link := AffectedLink(service);
            var now, more := measured["affected_services" := link.value], links + [link];
            && (forall key :: key in metrics ==>
                  key in now && Settled(now, more, key) && Explained(measured, start, more, key))
            && ("affected_services" in metrics ==> Known(more, "affected_services") == [link])
  {
    var link := AffectedLink(service);
    forall key | key in metrics
      ensures key in measured && Settled(measured["affected_services" := link.value], links + [link], key)
              && Explained(measured, start, links + [link], key)
              && (key == "affected_services" ==> Known(links + [link], key) == [link])
    {
      assert Reckoned(measured, start, links, key);
      KnownAppend(links, link, key);
    }
  }

  // How the closing loop accounts for a metric: as missing when nobody measured it, as the
  // alert's own when no source did, and otherwise by the source's link, left as it was.
  ghost predicate Explained(measured: Measured, links: seq<Link>, closed: seq<Link>, key: Metric)
    requires key in measured
  {
    if measured[key].None? then Link(key, None, "missing", true) in closed
    else if Known(links, key) == [] then
      Known(closed, key) == [Link(key, measured[key], "alert_labels_or_annotations", false)]
    else Known(closed, key) == Known(links, key)
  }

  // What the severity decision and its evidence owe each other: one known link with the value
  // used, or none at all for a metric nobody measured.
  ghost predicate Settled(measured: Measured, links: seq<Link>, key: Metric)
    requires key in measured
  {
    var known := Known(links, key);
    if measured[key].Some? then |known| == 1 && known[0].value == measured[key] else known == []
  }

  // ----- Precedence

  // The value of the last usable finding for a metric.
  function LastFor(c: Contract, findings: seq<Finding>, key: Metric): Option<Value> {
    if findings == [] then None
    else
      match c.Usable(findings[|findings| - 1])
      case Some((k, v)) => if k == key then Some(v) else LastFor(c, findings[..|findings| - 1], key)
      case None => LastFor(c, findings[..|findings| - 1], key)
  }

  lemma {:induction false} AbsorbedIsLast(c: Contract, measured: Measured, findings: seq<Finding>, key: Metric)
    requires key in measured
    ensures var after := AbsorbedValues(c, measured, findings);
            key in after && after[key] == if LastFor(c, findings, key).Some? then LastFor(c, findings, key)
              else measured[key]
  {
    if findings != [] {
      AbsorbedIsLast(c, measured, findings[..|findings| - 1], key);
    }
  }

  // All sources absorbed in turn.
  function AbsorbAll(c: Contract, measured: Measured, sources: seq<seq<Finding>>): Measured {
    if sources == [] then measured
    else AbsorbedValues(c, AbsorbAll(c, measured, sources[..|sources| - 1]), sources[|sources| - 1])
  }

  // The value in use comes from the last source that supplied a usable one.
  lemma {:induction false} HighestPrecedenceWins(c: Contract, labelled: Measured, sources: seq<seq<Finding>>,
                                                 key: Metric, s: nat)
    requires key in labelled && s < |sources| && LastFor(c, sources[s], key).Some?
    requires forall t :: s < t < |sources| ==> LastFor(c, sources[t], key).None?
    ensures var final := AbsorbAll(c, labelled, sources); key in final && final[key] == LastFor(c, sources[s], key)
  {
    var n := |sources| - 1;
    AbsorbAllKeys(c, labelled, sources[..n], key);
    AbsorbedIsLast(c, AbsorbAll(c, labelled, sources[..n]), sources[n], key);
    if s < n {
      HighestPrecedenceWins(c, labelled, sources[..n], key, s);
    }
  }

  // It comes from the alert's labels exactly as they were when no source supplied one.
  lemma {:induction false} LabelsLast(c: Contract, labelled: Measured, sources: seq<seq<Finding>>, key: Metric)
    requires key in labelled && forall s :: 0 <= s < |sources| ==> LastFor(c, sources[s], key).None?
    ensures var final := AbsorbAll(c, labelled, sources); key in final && final[key] == labelled[key]
  {
    if sources != [] {
      var n := |sources| - 1;
      LabelsLast(c, labelled, sources[..n], key);
      AbsorbedIsLast(c, AbsorbAll(c, labelled, sources[..n]), sources[n], key);
    }
  }

  lemma {:induction false} AbsorbAllKeys(c: Contract, labelled: Measured, sources: seq<seq<Finding>>, key: Metric)
    requires key in labelled
    ensures key in AbsorbAll(c, labelled, sources)
  {
    if sources != [] {
      var n := |sources| - 1;
      AbsorbAllKeys(c, labelled, sources[..n], key);
      AbsorbedIsLast(c, AbsorbAll(c, labelled, sources[..n]), sources[n], key);
    }
  }

  datatype Source = Source(prefix: string, findings: seq<Finding>)

  function FindingsOf(sources: seq<Source>): seq<seq<Finding>> {
    seq(|sources|, i requires 0 <= i < |sources| => sources[i].findings)
  }

  // The link of the last usable finding a source has for a metric.
  function LastLink(c: Contract, prefix: string, findings: seq<Finding>, key: Metric): Option<Link> {
    if findings == [] then None
    else
      var init, last := findings[..|findings| - 1], findings[|findings| - 1];
      match c.Usable(last)
      case Some((k, v)) => if k == key then Some(LinkOf(key, v, prefix, last)) else LastLink(c, prefix, init, key)
      case None => LastLink(c, prefix, init, key)
  }

  // The link of the source that wins a metric: the last one that supplied a usable value.
  function Winner(c: Contract, sources: seq<Source>, key: Metric): Option<Link> {
    if sources == [] then None
    else
      var init, last := sources[..|sources| - 1], sources[|sources| - 1];
      var link := LastLink(c, last.prefix, last.findings, key);
      if link.Some? then link else Winner(c, init, key)
  }

  lemma {:induction false} LastLinkValue(c: Contract, prefix: string, findings: seq<Finding>, key: Metric)
    ensures var link := LastLink(c, prefix, findings, key);
            if link.Some? then link.value.value == LastFor(c, findings, key) && link.value.value.Some?
            else LastFor(c, findings, key) == None
  {
    if findings != [] {
      LastLinkValue(c, prefix, findings[..|findings| - 1], key);
    }
  }

  // After a source is absorbed, the one known link of a metric it supplied is its own.
  lemma {:induction false} KnownAbsorbed(c: Contract, links: seq<Link>, findings: seq<Finding>, prefix: string,
                                         key: Metric)
    ensures Known(AbsorbedLinks(c, links, findings, prefix), key) ==
            if LastLink(c, prefix, findings, key).Some? then [LastLink(c, prefix, findings, key).value]
            else Known(links, key)
  {
    if findings != [] {
      var init, last := findings[..|findings| - 1], findings[|findings| - 1];
      var earlier := AbsorbedLinks(c, links, init, prefix);
      KnownAbsorbed(c, links, init, prefix, key);
      match c.Usable(last)
      case None =>
      case Some((k, v)) =>
        WithoutKnown(earlier, k, key);
        KnownAppend(Without(earlier, k), LinkOf(k, v, prefix, last), key);
    }
  }

  // The value in use is the winner's, or the alert's own when there is none.
  lemma {:induction false} WinnerValue(c: Contract, labelled: Measured, sources: seq<Source>, key: Metric)
    requires key in labelled
    ensures var final := AbsorbAll(c, labelled, FindingsOf(sources));
            && key in final
            && final[key] == if Winner(c, sources, key).Some? then Winner(c, sources, key).value.value
              else labelled[key]
  {
    if sources != [] {
      var n := |sources| - 1;
      assert FindingsOf(sources)[..n] == FindingsOf(sources[..n]);
      WinnerValue(c, labelled, sources[..n], key);
      AbsorbedIsLast(c, AbsorbAll(c, labelled, FindingsOf(sources[..n])), sources[n].findings, key);
      LastLinkValue(c, sources[n].prefix, sources[n].findings, key);
    }
  }

  // The links before the closing loop: each metric is known from its winner alone.
  ghost predicate FromWinners(c: Contract, links: seq<Link>, sources: seq<Source>) {
    forall key :: key in c.metrics ==>
      Known(links, key) == if Winner(c, sources, key).Some? then [Winner(c, sources, key).value] else []
  }

  lemma FromWinnersStep(c: Contract, links: seq<Link>, sources: seq<Source>, i: nat)
    requires i < |sources| && FromWinners(c, links, sources[..i])
    ensures FromWinners(c, AbsorbedLinks(c, links, sources[i].findings, sources[i].prefix), sources[..i + 1])
  {
    assert sources[..i + 1][..i] == sources[..i];
    forall key | key in c.metrics
      ensures Known(AbsorbedLinks(c, links, sources[i].findings, sources[i].prefix), key)
              == if Winner(c, sources[..i + 1], key).Some? then [Winner(c, sources[..i + 1], key).value] else []
    {
      KnownAbsorbed(c, links, sources[i].findings, sources[i].prefix, key);
    }
  }

  // What a decision may rely on for a metric: the value in use and the one link that explains it,
  // which names the winning source and the path of its finding, or the alert, or nobody.
  ghost predicate Accounted(c: Contract, labelled: Measured, sources: seq<Source>, service: string,
                            measured: Measured, links: seq<Link>, key: Metric)
    requires key in labelled && key in measured
  {
    match Winner(c, sources, key)
    case Some(link) => measured[key] == link.value && Known(links, key) == [link]
    case None =>
      if labelled[key].Some? then
        && measured[key] == labelled[key]
        && Known(links, key) == [Link(key, labelled[key], "alert_labels_or_annotations", false)]
      else if key == "affected_services" && service != "" then
        && measured[key] == Some(Number(1.0))
        && Known(links, key) == [AffectedLink(service)]
      else measured[key] == None && Known(links, key) == []
  }

  // The measured values a severity decision uses, and their ledger: labels first, then every
  // source in order of precedence, then the closing loop.
  method Extract(c: Contract, labelled: Measured, others: seq<Link>, sources: seq<Source>, service: string)
    returns (measured: Measured, links: seq<Link>)
    requires c.DistinctMetrics()
    requires forall key :: key in c.metrics ==> key in labelled && Known(others, key) == []
    ensures forall key :: key in c.metrics ==>
              key in measured && Accounted(c, labelled, sources, service, measured, links, key)
  {
    var ledger := new Ledger(c, labelled, others);
    ghost var findings := FindingsOf(sources);
    for i := 0 to |sources|
      invariant ledger.Valid() && ledger.contract == c && fresh(ledger)
      invariant ledger.measured == AbsorbAll(c, labelled, findings[..i])
      invariant FromWinners(c, ledger.links, sources[..i])
    {
      assert findings[..i + 1][..i] == findings[..i];
      FromWinnersStep(c, ledger.links, sources, i);
      ledger.Absorb(sources[i].findings, sources[i].prefix);
    }
    assert findings[..|sources|] == findings && sources[..|sources|] == sources;
    ghost var before, known := ledger.measured, ledger.links;
    assert forall key :: key in c.metrics ==> key in before;
    ledger.Close(service);
    forall key | key in c.metrics
      ensures key in ledger.measured && Accounted(c, labelled, sources, service, ledger.measured, ledger.links, key)
    {
      WinnerValue(c, labelled, sources, key);
      WinnerHasValue(c, sources, key);
      assert Explained(before, known, ledger.links, key) && Settled(ledger.measured, ledger.links, key);
    }
    return ledger.measured, ledger.links;
  }

  lemma {:induction false} WinnerHasValue(c: Contract, sources: seq<Source>, key: Metric)
    ensures Winner(c, sources, key).Some? ==> Winner(c, sources, key).value.value.Some?
  {
    if sources != [] {
      var n := |sources| - 1;
      WinnerHasValue(c, sources[..n], key);
      LastLinkValue(c, sources[n].prefix, sources[n].findings, key);
    }
  }

  // ----- Who wins

  ghost predicate Supplies(c: Contract, f: Finding, key: Metric, v: Value) {
    c.canonical(f.name) == Some(key) && c.coerce(key, f.raw) == Some(v)
  }

  ghost predicate Silent(c: Contract, findings: seq<Finding>, from: int, key: Metric) {
    forall i, v :: 0 <= from <= i < |findings| ==> !Supplies(c, findings[i], key, v)
  }

  // Finding i of source s is the last one, in the last source, that supplies the metric, and the link
  // gives its value and names that source and that finding's path.
  ghost predicate Wins(c: Contract, sources: seq<Source>, key: Metric, link: Link, s: int, i: int) {
    && 0 <= s < |sources| && 0 <= i < |sources[s].findings|
    && Silent(c, sources[s].findings, i + 1, key)
    && (forall t :: s < t < |sources| ==> Silent(c, sources[t].findings, 0, key))
    && exists v ::
         && Supplies(c, sources[s].findings[i], key, v)
         && link == Link(key, Some(v), sources[s].prefix + ":" + sources[s].findings[i].path, false)
  }

  lemma {:induction false} LastLinkMeans(c: Contract, prefix: string, findings: seq<Finding>, key: Metric)
    returns (i: nat)
    ensures var link := LastLink(c, prefix, findings, key);
            if link.None? then Silent(c, findings, 0, key)
            else
              && i < |findings| && Silent(c, findings, i + 1, key)
              && exists v :: Supplies(c, findings[i], key, v)
                             && link == Some(Link(key, Some(v), prefix + ":" + findings[i].path, false))
  {
    i := 0;
    if findings != [] {
      var n := |findings| - 1;
      var usable := c.Usable(findings[n]);
      if usable.Some? && usable.value.0 == key {
        i := n;
        assert Supplies(c, findings[n], key, usable.value.1);
      } else {
        i := LastLinkMeans(c, prefix, findings[..n], key);
        assert forall v :: !Supplies(c, findings[n], key, v);
      }
    }
  }

  lemma {:induction false} WinnerMeans(c: Contract, sources: seq<Source>, key: Metric) returns (s: nat, i: nat)
    ensures var link := Winner(c, sources, key);
            if link.None? then forall t :: 0 <= t < |sources| ==> Silent(c, sources[t].findings, 0, key)
            else Wins(c, sources, key, link.value, s, i)
  {
    s, i := 0, 0;
    if sources != [] {
      var n := |sources| - 1;
      i := LastLinkMeans(c, sources[n].prefix, sources[n].findings, key);
      s := n;
      if LastLink(c, sources[n].prefix, sources[n].findings, key).None? {
        s, i := WinnerMeans(c, sources[..n], key);
      }
    }
  }
}

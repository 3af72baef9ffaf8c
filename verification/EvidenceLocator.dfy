/**
 The locatable verdict: it fails only an evidence entry it can prove unlocatable
 (evals/benchmarks/evidence_locator.py). Argument equality after normalisation is a parameter.
 */
module EvidenceLocator {
  import opened Results
  import opened ReferenceParser

  datatype EntryState = Located | Unlocatable | Uncheckable

  datatype CaseState = Pass | Fail | CaseUncheckable

  // A recorded call; a call whose name is not text has none.
  datatype Call = Call(name: Option<string>, args: map<string, string>)

  type Sameness = (string, string) -> bool

  const QUERY_TEXT_ARGS: set<string> := {"logql", "query", "pattern"}

  predicate EndsWith(s: string, suffix: string) { |suffix| <= |s| && s[|s| - |suffix|..] == suffix }

  predicate NamedText(name: string, tool: string) {
    name == tool || EndsWith(name, "__" + tool) || EndsWith(name, "." + tool) || EndsWith(name, "/" + tool)
  }

  predicate Named(name: Option<string>, tool: string) { name.Some? && NamedText(name.value, tool) }

  predicate Catalogued(tool: string, catalog: set<string>) { exists t :: t in catalog && NamedText(tool, t) }

  // The arguments a reference and a call both name and disagree on.
  function Differing(ref: ToolCallRef, args: map<string, string>, same: Sameness): set<string> {
    set k | k in ref.args && k in args && !same(ref.args[k], args[k])
  }

  // ----- The verdict, declared

  predicate Called(ref: ToolCallRef, calls: seq<Call>) { exists c :: c in calls && Named(c.name, ref.tool) }

  // Some call to the tool disagrees on nothing.
  predicate Matched(ref: ToolCallRef, calls: seq<Call>, same: Sameness) {
    exists c :: c in calls && Named(c.name, ref.tool) && Differing(ref, c.args, same) == {}
  }

  // Some call to the tool disagrees, but only on free query text.
  predicate DiffersInTextOnly(ref: ToolCallRef, calls: seq<Call>, same: Sameness) {
    exists c :: c in calls && Named(c.name, ref.tool) && Differing(ref, c.args, same) <= QUERY_TEXT_ARGS
  }

  // Nothing recorded can be the call the reference claims.
  predicate Disproved(ref: ToolCallRef, calls: seq<Call>, catalog: set<string>, same: Sameness) {
    if Called(ref, calls) then !DiffersInTextOnly(ref, calls, same) else Catalogued(ref.tool, catalog)
  }

  function Verdict(ref: Option<ToolCallRef>, calls: seq<Call>, complete: bool, catalog: set<string>,
                   same: Sameness): EntryState {
    if ref.None? then Uncheckable
    else if Matched(ref.value, calls, same) then Located
    else if complete && Disproved(ref.value, calls, catalog, same) then Unlocatable
    else Uncheckable
  }

  function ReferenceOf(entry: Option<string>): Option<ToolCallRef> {
    if entry.None? then None else Parse(entry.value)
  }

  // ----- The check, as the source runs it

  method SameToolArgs(tool: string, calls: seq<Call>) returns (sameTool: seq<map<string, string>>)
    ensures forall a :: a in sameTool <==> exists c :: c in calls && Named(c.name, tool) && c.args == a
  {
    sameTool := [];
    for i := 0 to |calls|
      invariant forall a :: a in sameTool <==> exists c :: c in calls[..i] && Named(c.name, tool) && c.args == a
    {
      assert calls[..i + 1] == calls[..i] + [calls[i]];
      if Named(calls[i].name, tool) {
        sameTool := sameTool + [calls[i].args];
      }
    }
    assert calls[..|calls|] == calls;
  }

  // The conflicts of the calls to one tool, stopping at the first call without any.
  method CompareCalls(ref: ToolCallRef, sameTool: seq<map<string, string>>, same: Sameness)
    returns (located: bool, textual: bool)
    ensures located <==> exists a :: a in sameTool && Differing(ref, a, same) == {}
    ensures !located ==> (textual <==> exists a :: a in sameTool && Differing(ref, a, same) <= QUERY_TEXT_ARGS)
  {
    var conflicts: seq<set<string>> := [];
    for i := 0 to |sameTool|
      invariant |conflicts| == i
      invariant forall j :: 0 <= j < i ==> conflicts[j] == Differing(ref, sameTool[j], same) && conflicts[j] != {}
    {
      var differing := Differing(ref, sameTool[i], same);
      if differing == {} {
        return true, false;
      }
      conflicts := conflicts + [differing];
    }
    located := false;
    textual := exists j :: 0 <= j < |conflicts| && conflicts[j] <= QUERY_TEXT_ARGS;
    if textual {
      var j :| 0 <= j < |conflicts| && conflicts[j] <= QUERY_TEXT_ARGS;
      assert sameTool[j] in sameTool;
    }
  }

  method CheckEntry(entry: Option<string>, calls: seq<Call>, complete: bool, catalog: set<string>, same: Sameness)
    returns (state: EntryState)
    ensures state == Verdict(ReferenceOf(entry), calls, complete, catalog, same)
  {
    if entry.None? {
      return Uncheckable;
    }
    var parsed := ParseReference(entry.value);
    if parsed.None? {
      return Uncheckable;
    }
    var ref := parsed.value;
    var sameTool := SameToolArgs(ref.tool, calls);
    assert forall c :: c in calls && Named(c.name, ref.tool) ==> c.args in sameTool;
    if sameTool == [] {
      if !Catalogued(ref.tool, catalog) {
        return Uncheckable;
      }
    } else {
      assert sameTool[0] in sameTool;
      var located, textual := CompareCalls(ref, sameTool, same);
      if located {
        return Located;
      }
      if textual {
        assert DiffersInTextOnly(ref, calls, same);
        return Uncheckable;
      }
    }
    return if complete then Unlocatable else Uncheckable;
  }

  // A review case: references of its evidence entries, its transcripts' calls, completeness.
  datatype Case = Case(evidence: seq<Option<string>>, transcripts: int, calls: seq<Call>, complete: bool)

  method CheckCase(c: Case, catalog: set<string>, same: Sameness) returns (state: CaseState, entries: seq<EntryState>)
    ensures c.evidence == [] ==> state == CaseUncheckable && entries == []
    ensures c.evidence != [] ==> |entries| == |c.evidence|
    ensures c.transcripts <= 0 ==> state == CaseUncheckable
    ensures c.evidence != [] && c.transcripts > 0 ==>
              forall i :: 0 <= i < |entries| ==>
                entries[i] == Verdict(ReferenceOf(c.evidence[i]), c.calls, c.complete, catalog, same)
    ensures state == Fail <==> Unlocatable in entries
    ensures state == Pass <==> Located in entries && Unlocatable !in entries
    ensures state == Fail ==> c.complete
  {
    if c.evidence == [] {
      return CaseUncheckable, [];
    }
    if c.transcripts <= 0 {
      return CaseUncheckable, seq(|c.evidence|, _ => Uncheckable);
    }
    entries := [];
    for i := 0 to |c.evidence|
      invariant |entries| == i
      invariant forall j :: 0 <= j < i ==>
                  entries[j] == Verdict(ReferenceOf(c.evidence[j]), c.calls, c.complete, catalog, same)
    {
      var entry := CheckEntry(c.evidence[i], c.calls, c.complete, catalog, same);
      entries := entries + [entry];
    }
    if Unlocatable in entries {
      return Fail, entries;
    }
    if forall i :: 0 <= i < |entries| ==> entries[i] == Uncheckable {
      return CaseUncheckable, entries;
    }
    var i :| 0 <= i < |entries| && entries[i] != Uncheckable;
    assert entries[i] in entries;
    return Pass, entries;
  }

  // ----- Theorems

  function Rank(s: EntryState): int {
    match s
    case Unlocatable => 0
    case Uncheckable => 1
    case Located => 2
  }

  ghost predicate Includes(calls: seq<Call>, more: seq<Call>) { forall c :: c in calls ==> c in more }

  // Recording more calls worsens a verdict in exactly one situation: the tool was neither
  // called nor catalogued before, and the new calls to it all conflict. Once the tool has a
  // recorded call no further call worsens anything.
  lemma MoreCalls(ref: Option<ToolCallRef>, calls: seq<Call>, more: seq<Call>, complete: bool, catalog: set<string>,
                  same: Sameness)
    requires Includes(calls, more)
    ensures Rank(Verdict(ref, more, complete, catalog, same)) < Rank(Verdict(ref, calls, complete, catalog, same)) <==>
            && ref.Some? && complete
            && !Called(ref.value, calls) && !Catalogued(ref.value.tool, catalog)
            && Called(ref.value, more) && !DiffersInTextOnly(ref.value, more, same)
  {
    if ref.Some? {
      var r := ref.value;
      assert Called(r, calls) ==> Called(r, more);
      assert Matched(r, calls, same) ==> Matched(r, more, same);
      assert DiffersInTextOnly(r, calls, same) ==> DiffersInTextOnly(r, more, same);
      assert Matched(r, more, same) ==> DiffersInTextOnly(r, more, same);
      assert Matched(r, calls, same) ==> Called(r, calls);
    }
  }

  // The name is the tool's, alone or behind a server's prefix.
  ghost predicate Addresses(name: string, tool: string) {
    || name == tool
    || exists prefix ::
         name == prefix + ("__" + tool) || name == prefix + ("." + tool) || name == prefix + ("/" + tool)
  }

  lemma EndsMeans(s: string, suffix: string)
    ensures EndsWith(s, suffix) <==> exists prefix :: s == prefix + suffix
  {
    if EndsWith(s, suffix) {
      assert s == s[..|s| - |suffix|] + suffix;
    }
    if prefix :| s == prefix + suffix {
      assert s[|s| - |suffix|..] == suffix;
    }
  }

  lemma NamedMeans(name: string, tool: string)
    ensures NamedText(name, tool) <==> Addresses(name, tool)
  {
    EndsMeans(name, "__" + tool);
    EndsMeans(name, "." + tool);
    EndsMeans(name, "/" + tool);
  }

  ghost predicate ToTool(c: Call, tool: string) { c.name.Some? && Addresses(c.name.value, tool) }

  // The reference and the call both name the argument and disagree on it.
  ghost predicate Conflicts(ref: ToolCallRef, c: Call, same: Sameness, k: string) {
    k in ref.args && k in c.args && !same(ref.args[k], c.args[k])
  }

  ghost predicate Agrees(ref: ToolCallRef, c: Call, same: Sameness) { forall k :: !Conflicts(ref, c, same, k) }

  // The call disagrees on more than free query text.
  ghost predicate Contradicts(ref: ToolCallRef, c: Call, same: Sameness) {
    exists k :: Conflicts(ref, c, same, k) && k != "logql" && k != "query" && k != "pattern"
  }

  // An entry is located exactly when some recorded call to its tool agrees with it, and unlocatable
  // exactly when the transcripts are complete and every call to its tool contradicts it or, with no
  // such call, its tool is a catalogued one.
  lemma VerdictMeans(ref: Option<ToolCallRef>, calls: seq<Call>, complete: bool, catalog: set<string>, same: Sameness)
    ensures Verdict(ref, calls, complete, catalog, same) == Located <==>
            ref.Some? && exists c :: c in calls && ToTool(c, ref.value.tool) && Agrees(ref.value, c, same)
    ensures Verdict(ref, calls, complete, catalog, same) == Unlocatable <==>
            && ref.Some? && complete
            && (forall c :: c in calls && ToTool(c, ref.value.tool) ==> Contradicts(ref.value, c, same))
            && ((exists c :: c in calls && ToTool(c, ref.value.tool))
                || exists t :: t in catalog && Addresses(ref.value.tool, t))
  {
    if ref.Some? {
      var r := ref.value;
      forall c | c in calls
        ensures Named(c.name, r.tool) <==> ToTool(c, r.tool)
        ensures Differing(r, c.args, same) == {} <==> Agrees(r, c, same)
        ensures Differing(r, c.args, same) <= QUERY_TEXT_ARGS <==> !Contradicts(r, c, same)
        ensures Agrees(r, c, same) ==> !Contradicts(r, c, same)
      {
        if c.name.Some? { NamedMeans(c.name.value, r.tool); }
        assert forall k :: k in Differing(r, c.args, same) <==> Conflicts(r, c, same, k);
      }
      forall t | t in catalog ensures NamedText(r.tool, t) <==> Addresses(r.tool, t) {
        NamedMeans(r.tool, t);
      }
    }
  }

  // Adding the transcripts that were missing is the only way completeness changes a verdict:
  // an incomplete case never fails.
  lemma IncompleteNeverFails(ref: Option<ToolCallRef>, calls: seq<Call>, catalog: set<string>, same: Sameness)
    ensures Verdict(ref, calls, false, catalog, same) != Unlocatable
    ensures Verdict(ref, calls, true, catalog, same) != Unlocatable
            ==> Verdict(ref, calls, true, catalog, same) == Verdict(ref, calls, false, catalog, same)
  {}

  // A reference that prints a call which was made, with values the call agrees with, is located
  // whatever prose follows and whatever else was called.
  lemma FaithfulReferenceLocated(tool: string, items: seq<Item>, prose: string, call: Call,
                                 calls: seq<Call>, complete: bool, catalog: set<string>, same: Sameness)
    requires IsTool(tool) && Printable(items)
    requires call in calls && Named(call.name, tool)
    requires forall k :: k in ArgMap(items) && k in call.args ==> same(ArgMap(items)[k], call.args[k])
    ensures Verdict(ReferenceOf(Some(Print(tool, items) + prose)), calls, complete, catalog, same) == Located
  {
    RoundTrip(tool, items, prose);
    assert Differing(ToolCallRef(tool, ArgMap(items)), call.args, same) == {};
  }
}

/**
 The bracket and quote scanner behind evidence references, restarted at every comma, and the
 reference parser built on it (evals/benchmarks/evidence_locator.py).
 */
module ReferenceScanner {
  import opened Results

  // ----- One character at a time

  // Open brackets awaiting their closers, the open quote, and whether a backslash skips the
  // next character.
  datatype State = State(depth: seq<char>, quote: Option<char>, escaped: bool)

  const Fresh := State([], None, false)

  predicate IsOpen(c: char) { c == '(' || c == '[' || c == '{' }

  predicate IsClose(c: char) { c == ')' || c == ']' || c == '}' }

  function Closer(c: char): char
    requires IsOpen(c)
  {
    if c == '(' then ')' else if c == '[' then ']' else '}'
  }

  predicate IsQuote(c: char) { c == '"' || c == '\'' }

  // The scanner's state after one more character; a closer that matches nothing is ignored.
  function Step(s: State, c: char): State {
    if s.escaped then s.(escaped := false)
    else if s.quote.Some? then
      if c == '\\' then s.(escaped := true)
      else if c == s.quote.value then s.(quote := None)
      else s
    else if IsQuote(c) then s.(quote := Some(c))
    else if IsOpen(c) then s.(depth := s.depth + [Closer(c)])
    else if IsClose(c) && s.depth != [] && s.depth[|s.depth| - 1] == c then s.(depth := s.depth[..|s.depth| - 1])
    else s
  }

  function Run(s: State, text: string): State {
    if text == [] then s else Step(Run(s, text[..|text| - 1]), text[|text| - 1])
  }

  // Outside every bracket and quote.
  predicate TopLevel(s: State) { s == Fresh }

  // The scan ends here: at a top-level closer, or at a top-level comma when asked to.
  predicate Stops(s: State, c: char, stopAtComma: bool) {
    TopLevel(s) && (IsClose(c) || (stopAtComma && c == ','))
  }

  lemma RunStep(s: State, text: string, i: nat, j: nat)
    requires i <= j < |text|
    ensures Run(s, text[i..j + 1]) == Step(Run(s, text[i..j]), text[j])
  {
    assert text[i..j + 1][..j - i] == text[i..j];
  }

  lemma {:induction false} RunAppend(s: State, a: string, b: string)
    ensures Run(s, a + b) == Run(Run(s, a), b)
  {
    if b == [] {
      assert a + b == a;
    } else {
      var n := |b| - 1;
      assert (a + b)[..|a + b| - 1] == a + b[..n];
      RunAppend(s, a, b[..n]);
    }
  }

  // ----- The scan

  // The scan from position i in state s: the first stop, if it is a `)` or a comma.
  function ScanFrom(text: string, i: nat, s: State, stopAtComma: bool): int
    decreases |text| - i
  {
    if i >= |text| then -1
    else if Stops(s, text[i], stopAtComma) then
      if text[i] == ')' || text[i] == ',' then i else -1
    else ScanFrom(text, i + 1, Step(s, text[i]), stopAtComma)
  }

  // Where the scan does not stop it goes on in the next state.
  lemma ScanOn(text: string, i: nat, s: State, stopAtComma: bool)
    requires i < |text| && !Stops(s, text[i], stopAtComma)
    ensures ScanFrom(text, i, s, stopAtComma) == ScanFrom(text, i + 1, Step(s, text[i]), stopAtComma)
  {}

  // After a backslash the next character is passed, if there is one.
  lemma ScanEscaped(text: string, i: nat, depth: seq<char>, quote: Option<char>, stopAtComma: bool)
    ensures ScanFrom(text, i, State(depth, quote, true), stopAtComma)
            == ScanFrom(text, i + 1, State(depth, quote, false), stopAtComma)
  {
    if i < |text| {
      assert !Stops(State(depth, quote, true), text[i], stopAtComma);
      ScanOn(text, i, State(depth, quote, true), stopAtComma);
    }
  }

  // What one character does to the open brackets and the quote, and whether it escapes the next one.
  method Advance(c: char, depth: seq<char>, quote: Option<char>)
    returns (depth': seq<char>, quote': Option<char>, escapes: bool)
    ensures State(depth', quote', escapes) == Step(State(depth, quote, false), c)
  {
    depth', quote', escapes := depth, quote, false;
    if quote.Some? {
      if c == '\\' {
        escapes := true;
      } else if c == quote.value {
        quote' := None;
      }
    } else if IsQuote(c) {
      quote' := Some(c);
    } else if IsOpen(c) {
      depth' := depth + [Closer(c)];
    } else if IsClose(c) && depth != [] && depth[|depth| - 1] == c {
      depth' := depth[..|depth| - 1];
    }
  }

  // The scanner's loop. A backslash inside a quote moves the index past the next character.
  method Scan(text: string, start: nat, stopAtComma: bool) returns (r: int)
    ensures r == ScanFrom(text, start, Fresh, stopAtComma)
  {
    var depth: seq<char> := [];
    var quote: Option<char> := None;
    var i := start;
    while i < |text|
      invariant start <= i
      invariant ScanFrom(text, start, Fresh, stopAtComma) == ScanFrom(text, i, State(depth, quote, false), stopAtComma)
    {
      var c := text[i];
      if quote.None? && depth == [] {
        if IsClose(c) {
          return if c == ')' then i else -1;
        }
        if c == ',' && stopAtComma {
          return i;
        }
      }
      ScanOn(text, i, State(depth, quote, false), stopAtComma);
      var escapes;
      depth, quote, escapes := Advance(c, depth, quote);
      i := i + 1;
      if escapes {
        ScanEscaped(text, i, depth, quote, stopAtComma);
        i := i + 1;
      }
    }
    return -1;
  }

  ghost predicate StopsAt(text: string, start: nat, i: nat, stopAtComma: bool)
    requires start <= i < |text|
  {
    Stops(Run(Fresh, text[start..i]), text[i], stopAtComma)
  }

  ghost predicate FirstStop(text: string, start: nat, i: nat, stopAtComma: bool)
    requires start <= i < |text|
  {
    StopsAt(text, start, i, stopAtComma) && forall j :: start <= j < i ==> !StopsAt(text, start, j, stopAtComma)
  }

  ghost predicate NoStop(text: string, start: nat, i: nat, stopAtComma: bool)
    requires start <= i <= |text|
  {
    forall j :: start <= j < i ==> !StopsAt(text, start, j, stopAtComma)
  }

  // A result names the first stop from i on, if that is a `)` or a comma; otherwise it is -1.
  ghost predicate NamesStop(text: string, start: nat, i: nat, stopAtComma: bool, r: int)
    requires start <= i <= |text|
  {
    if r >= 0 then i <= r < |text| && FirstStop(text, start, r, stopAtComma) && text[r] in {')', ','}
    else
      && r == -1
      && forall k :: i <= k < |text| && FirstStop(text, start, k, stopAtComma) ==> text[k] !in {')', ','}
  }

  lemma StopNamed(text: string, start: nat, i: nat, s: State, stopAtComma: bool)
    requires start <= i < |text| && NoStop(text, start, i, stopAtComma) && StopsAt(text, start, i, stopAtComma)
    requires s == Run(Fresh, text[start..i])
    ensures NamesStop(text, start, i, stopAtComma, ScanFrom(text, i, s, stopAtComma))
  {
    assert FirstStop(text, start, i, stopAtComma);
    forall k | i <= k < |text| && FirstStop(text, start, k, stopAtComma) ensures k == i {}
  }

  lemma NamedLater(text: string, start: nat, i: nat, stopAtComma: bool, r: int)
    requires start <= i < |text| && !StopsAt(text, start, i, stopAtComma)
    requires NamesStop(text, start, i + 1, stopAtComma, r)
    ensures NamesStop(text, start, i, stopAtComma, r)
  {}

  // The state before a position decides whether the scan stops there, and is the next state's past.
  lemma StateStep(text: string, start: nat, i: nat, s: State, stopAtComma: bool)
    requires start <= i < |text| && s == Run(Fresh, text[start..i])
    ensures StopsAt(text, start, i, stopAtComma) <==> Stops(s, text[i], stopAtComma)
    ensures Run(Fresh, text[start..i + 1]) == Step(s, text[i])
  {
    RunStep(Fresh, text, start, i);
  }

  lemma NoStopMore(text: string, start: nat, i: nat, stopAtComma: bool)
    requires start <= i < |text| && NoStop(text, start, i, stopAtComma) && !StopsAt(text, start, i, stopAtComma)
    ensures NoStop(text, start, i + 1, stopAtComma)
  {}

  lemma {:induction false} ScanInner(text: string, start: nat, i: nat, s: State, stopAtComma: bool)
    requires start <= i <= |text| && NoStop(text, start, i, stopAtComma) && s == Run(Fresh, text[start..i])
    ensures NamesStop(text, start, i, stopAtComma, ScanFrom(text, i, s, stopAtComma))
    decreases |text| - i
  {
    if i == |text| {
      assert ScanFrom(text, i, s, stopAtComma) == -1;
    } else {
      StateStep(text, start, i, s, stopAtComma);
      if Stops(s, text[i], stopAtComma) {
        StopNamed(text, start, i, s, stopAtComma);
      } else {
        ScanOn(text, i, s, stopAtComma);
        NoStopMore(text, start, i, stopAtComma);
        ScanInner(text, start, i + 1, Step(s, text[i]), stopAtComma);
        NamedLater(text, start, i, stopAtComma, ScanFrom(text, i, s, stopAtComma));
      }
    }
  }

  // A scan returns the first position at which the one-pass state machine is at top level and
  // reads a closer or a wanted comma, provided that character is `)` or `,`; otherwise -1.
  lemma ScanIsFirstStop(text: string, start: nat, stopAtComma: bool)
    requires start <= |text|
    ensures NamesStop(text, start, start, stopAtComma, ScanFrom(text, start, Fresh, stopAtComma))
  {
    assert text[start..start] == [];
    ScanInner(text, start, start, Fresh, stopAtComma);
  }

  // ----- Splitting

  function Join(parts: seq<string>): string {
    if parts == [] then []
    else if |parts| == 1 then parts[0]
    else Join(parts[..|parts| - 1]) + "," + parts[|parts| - 1]
  }

  // One pass over the text, cutting at every comma outside all brackets and quotes.
  function Split(text: string): (parts: seq<string>)
    ensures parts != []
  {
    if text == [] then [[]]
    else
      var init, c := text[..|text| - 1], text[|text| - 1];
      var parts := Split(init);
      if c == ',' && TopLevel(Run(Fresh, init)) then parts + [[]]
      else parts[..|parts| - 1] + [parts[|parts| - 1] + [c]]
  }

  lemma JoinFresh(parts: seq<string>)
    requires parts != []
    ensures Join(parts + [[]]) == Join(parts) + ","
  {
    assert (parts + [[]])[..|parts|] == parts;
    assert Join(parts) + "," + [] == Join(parts) + ",";
  }

  lemma JoinGrown(before: seq<string>, last: string, c: char)
    ensures Join(before + [last + [c]]) == Join(before + [last]) + [c]
  {
    var parts, grown := before + [last], before + [last + [c]];
    assert parts[..|before|] == before && grown[..|before|] == before;
    if before != [] {
      assert Join(before) + "," + (last + [c]) == Join(before) + "," + last + [c];
    }
  }

  // Cutting loses nothing: joining the parts with commas rebuilds the text.
  lemma {:induction false} JoinSplit(text: string)
    ensures Join(Split(text)) == text
  {
    if text != [] {
      var init, c := text[..|text| - 1], text[|text| - 1];
      JoinSplit(init);
      var parts := Split(init);
      assert init + [c] == text;
      if c == ',' && TopLevel(Run(Fresh, init)) {
        JoinFresh(parts);
      } else {
        var before, last := parts[..|parts| - 1], parts[|parts| - 1];
        assert parts == before + [last];
        JoinGrown(before, last, c);
      }
    }
  }

  // Text between a tool's parentheses: it never reaches a top-level closer and ends at top level.
  ghost predicate Enclosed(inner: string) {
    && (forall i :: 0 <= i < |inner| ==> !StopsAt(inner, 0, i, false))
    && TopLevel(Run(Fresh, inner))
  }

  ghost predicate CutAt(text: string, i: nat)
    requires i < |text|
  {
    text[i] == ',' && TopLevel(Run(Fresh, text[..i]))
  }

  lemma SplitCut(text: string, end: nat)
    requires end < |text| && CutAt(text, end)
    ensures Split(text[..end + 1]) == Split(text[..end]) + [[]]
  {
    assert text[..end + 1][..end] == text[..end];
  }

  lemma SplitKeep(text: string, end: nat, before: seq<string>, last: string)
    requires end < |text| && !CutAt(text, end)
    requires Split(text[..end]) == before + [last]
    ensures Split(text[..end + 1]) == before + [last + [text[end]]]
  {
    assert text[..end + 1][..end] == text[..end];
    assert (before + [last])[..|before|] == before;
  }

  // A part of the split can begin here: at the start or just after a cut.
  ghost predicate PartStart(text: string, start: nat) {
    start <= |text| && (start == 0 || CutAt(text, start - 1))
  }

  ghost predicate NoCut(text: string, start: nat, end: nat) {
    end <= |text| && forall i :: start <= i < end ==> !CutAt(text, i)
  }

  lemma NoCutLast(text: string, start: nat, end: nat)
    requires start < end && NoCut(text, start, end)
    ensures NoCut(text, start, end - 1) && !CutAt(text, end - 1)
  {}

  lemma SliceLast(text: string, start: nat, end: nat)
    requires start < end <= |text|
    ensures text[start..end] == text[start..end - 1] + [text[end - 1]]
  {}

  // With no cut from `start` on, the last part is the text since the last cut.
  lemma {:induction false} SplitGrows(text: string, start: nat, end: nat)
    requires start <= end && PartStart(text, start) && NoCut(text, start, end)
    ensures Split(text[..end]) == Before(text, start) + [text[start..end]]
    decreases end
  {
    if end > start {
      NoCutLast(text, start, end);
      SplitGrows(text, start, end - 1);
      SliceLast(text, start, end);
      SplitKeep(text, end - 1, Before(text, start), text[start..end - 1]);
    } else {
      SplitFresh(text, start);
    }
  }

  // A part that has just begun is empty.
  lemma SplitFresh(text: string, start: nat)
    requires PartStart(text, start)
    ensures Split(text[..start]) == Before(text, start) + [text[start..start]]
  {
    assert text[start..start] == [];
    if start > 0 {
      SplitCut(text, start - 1);
    } else {
      assert text[..0] == [];
    }
  }

  // The parts completed before the part that begins at `start`.
  ghost function Before(text: string, start: nat): seq<string>
    requires start <= |text|
  {
    if start == 0 then [] else Split(text[..start - 1])
  }

  // Restarting at a top-level position changes nothing.
  lemma Restart(text: string, start: nat, i: nat)
    requires start <= i <= |text| && Run(Fresh, text[..start]) == Fresh
    ensures Run(Fresh, text[start..i]) == Run(Fresh, text[..i])
  {
    assert text[..i] == text[..start] + text[start..i];
    RunAppend(Fresh, text[..start], text[start..i]);
  }

  // Inside enclosed text a restarted scan stops exactly at the cuts, and at the closer after it.
  lemma RestartedStops(inner: string, start: nat, i: nat)
    requires Enclosed(inner) && start <= i <= |inner| && Run(Fresh, inner[..start]) == Fresh
    ensures StopsAt(inner + ")", start, i, true) <==> i == |inner| || CutAt(inner, i)
  {
    assert (inner + ")")[start..i] == inner[start..i];
    Restart(inner, start, i);
    if i == |inner| {
      assert inner[..i] == inner;
    } else {
      assert inner[0..i] == inner[..i];
      assert !StopsAt(inner, 0, i, false);
    }
  }

  // A scan restarted at a top-level position finds the next cut, or the end of the text.
  lemma RestartedScan(inner: string, start: nat)
    requires Enclosed(inner) && start <= |inner| && Run(Fresh, inner[..start]) == Fresh
    ensures var end := ScanFrom(inner + ")", start, Fresh, true);
            start <= end <= |inner| && (end < |inner| ==> CutAt(inner, end)) && NoCut(inner, start, end)
  {
    var text := inner + ")";
    var end := ScanFrom(text, start, Fresh, true);
    RestartedStops(inner, start, |inner|);
    FirstStopExists(text, start, |inner|, true);
    ScanIsFirstStop(text, start, true);
    if end >= 0 {
      RestartedStops(inner, start, end);
      forall i | start <= i < end ensures !CutAt(inner, i) {
        RestartedStops(inner, start, i);
      }
    } else {
      var k :| start <= k <= |inner| && FirstStop(text, start, k, true);
      RestartedStops(inner, start, k);
      assert false;
    }
  }

  lemma {:induction false} FirstStopExists(text: string, start: nat, i: nat, stopAtComma: bool)
    requires start <= i < |text| && StopsAt(text, start, i, stopAtComma)
    ensures exists k :: start <= k <= i && FirstStop(text, start, k, stopAtComma)
    decreases i
  {
    if exists j :: start <= j < i && StopsAt(text, start, j, stopAtComma) {
      var j :| start <= j < i && StopsAt(text, start, j, stopAtComma);
      FirstStopExists(text, start, j, stopAtComma);
    } else {
      assert FirstStop(text, start, i, stopAtComma);
    }
  }

  lemma AfterCut(text: string, i: nat)
    requires i < |text| && CutAt(text, i)
    ensures Run(Fresh, text[..i + 1]) == Fresh
  {
    assert text[..i + 1][..i] == text[..i];
  }

  // The parts cut off so far are those of the one-pass split before `start`, a top-level position.
  ghost predicate Cutting(inner: string, start: nat, parts: seq<string>) {
    && start <= |inner| && Run(Fresh, inner[..start]) == Fresh
    && PartStart(inner, start) && parts == Before(inner, start)
  }

  // One turn of the loop on enclosed text, up to where the restarted scan stops.
  lemma CutOff(inner: string, start: nat, parts: seq<string>)
    requires Enclosed(inner) && Cutting(inner, start, parts)
    ensures var end := ScanFrom(inner + ")", start, Fresh, true);
            && start <= end <= |inner|
            && (end < |inner| ==> Cutting(inner, end + 1, parts + [inner[start..end]]))
            && (end == |inner| ==> parts + [inner[start..]] == Split(inner))
  {
    var end := ScanFrom(inner + ")", start, Fresh, true);
    RestartedScan(inner, start);
    if end < |inner| {
      CutThere(inner, start, parts, end);
    } else {
      CutLast(inner, start, parts);
    }
  }

  lemma CutLast(inner: string, start: nat, parts: seq<string>)
    requires Cutting(inner, start, parts) && NoCut(inner, start, |inner|)
    ensures parts + [inner[start..]] == Split(inner)
  {
    SplitGrows(inner, start, |inner|);
    assert inner[..|inner|] == inner && inner[start..|inner|] == inner[start..];
  }

  lemma CutThere(inner: string, start: nat, parts: seq<string>, end: nat)
    requires Cutting(inner, start, parts) && start <= end < |inner| && CutAt(inner, end) && NoCut(inner, start, end)
    ensures Cutting(inner, end + 1, parts + [inner[start..end]])
  {
    SplitGrows(inner, start, end);
    AfterCut(inner, end);
    assert Before(inner, end + 1) == Split(inner[..end]);
  }

  lemma CutStart(inner: string)
    ensures Cutting(inner, 0, [])
  {
    assert inner[..0] == [];
  }

  // The next place to cut, or none.
  method NextCut(inner: string, start: nat, ghost parts: seq<string>) returns (end: int)
    requires start <= |inner|
    ensures end < 0 || start <= end <= |inner|
    ensures Enclosed(inner) && Cutting(inner, start, parts) ==>
              if 0 <= end < |inner| then Cutting(inner, end + 1, parts + [inner[start..end]])
              else parts + [inner[start..]] == Split(inner)
  {
    end := Scan(inner + ")", start, true);
    ScanIsFirstStop(inner + ")", start, true);
    if Enclosed(inner) && Cutting(inner, start, parts) {
      CutOff(inner, start, parts);
    }
  }

  // Splitting restarts the scanner after every comma; on enclosed text the result is the
  // one-pass split, so every cut is a top-level comma of the whole text and none is missed.
  method SplitArgs(inner: string) returns (parts: seq<string>)
    ensures Enclosed(inner) ==> parts == Split(inner) && Join(parts) == inner
  {
    parts := [];
    var start := 0;
    CutStart(inner);
    JoinSplit(inner);
    while true
      invariant start <= |inner|
      invariant Enclosed(inner) ==> Cutting(inner, start, parts)
      decreases |inner| - start
    {
      var end := NextCut(inner, start, parts);
      if end < 0 || end >= |inner| {
        parts := parts + [inner[start..]];
        return;
      }
      parts := parts + [inner[start..end]];
      start := end + 1;
    }
  }
}

/**
 Parsing an evidence reference into the tool call it claims, and the round trip with printing
 one (evals/benchmarks/evidence_locator.py). Character classes are the ASCII ones.
 */
module ReferenceParser {
  import opened Results
  import opened ReferenceScanner
  import opened Text

  // The tool call an evidence reference claims.
  datatype ToolCallRef = ToolCallRef(tool: string, args: map<string, string>)

  predicate IsLetter(c: char) { 'a' <= c <= 'z' || 'A' <= c <= 'Z' || c == '_' }

  predicate IsWord(c: char) { IsLetter(c) || '0' <= c <= '9' }

  predicate IsToolChar(c: char) { IsWord(c) || c == '.' || c == '-' }

  // ----- str.partition and the two regular expressions

  // The text before the first `=` and, if there is one, the text after it.
  function Partition(s: string): (r: (string, Option<string>)) {
    if s == [] then ([], None)
    else if s[0] == '=' then ([], Some(s[1..]))
    else
      var (key, value) := Partition(s[1..]);
      ([s[0]] + key, value)
  }

  predicate IsKey(s: string) { s != [] && IsLetter(s[0]) && forall i :: 0 <= i < |s| ==> IsWord(s[i]) }

  predicate IsTool(s: string) { s != [] && IsLetter(s[0]) && forall i :: 0 <= i < |s| ==> IsToolChar(s[i]) }

  function SkipSpaces(text: string, i: nat): (j: nat)
    requires i <= |text|
    ensures i <= j <= |text|
    decreases |text| - i
  {
    if i < |text| && IsSpace(text[i]) then SkipSpaces(text, i + 1) else i
  }

  function SkipTool(text: string, i: nat): (j: nat)
    requires i <= |text|
    ensures i <= j <= |text|
    decreases |text| - i
  {
    if i < |text| && IsToolChar(text[i]) then SkipTool(text, i + 1) else i
  }

  function SkipTick(text: string, i: nat): (j: nat)
    requires i <= |text|
    ensures i <= j <= |text|
  {
    if i < |text| && text[i] == '`' then i + 1 else i
  }

  // The tool a reference opens with and the position after its opening parenthesis.
  function MatchTool(text: string): (r: Option<(string, nat)>)
    ensures r.Some? ==> r.value.1 <= |text|
  {
    var begin := SkipTick(text, SkipSpaces(text, 0));
    if begin < |text| && IsLetter(text[begin]) then
      var end := SkipTool(text, begin);
      var paren := SkipSpaces(text, SkipTick(text, end));
      if paren < |text| && text[paren] == '(' then Some((text[begin..end], paren + 1)) else None
    else None
  }

  // The `key=value` parts, later ones overriding; parts without a key are prose.
  function ParseArgs(parts: seq<string>): map<string, string> {
    if parts == [] then map[]
    else
      var earlier := ParseArgs(parts[..|parts| - 1]);
      var (key, value) := Partition(parts[|parts| - 1]);
      if value.Some? && IsKey(Trim(key)) then earlier[Trim(key) := Trim(value.value)] else earlier
  }

  // A reference parses to a tool call when it opens with a tool name and a parenthesis whose
  // top-level closer exists; the arguments are the one-pass split of what is between.
  function Parse(text: string): Option<ToolCallRef> {
    match MatchTool(text)
    case None => None
    case Some((tool, start)) =>
      var close := ScanFrom(text, start, Fresh, false);
      ScanIsFirstStop(text, start, false);
      if close < 0 then None else Some(ToolCallRef(tool, ParseArgs(Split(text[start..close]))))
  }

  method CollectArgs(parts: seq<string>) returns (args: map<string, string>)
    ensures args == ParseArgs(parts)
  {
    args := map[];
    for i := 0 to |parts|
      invariant args == ParseArgs(parts[..i])
    {
      assert parts[..i + 1][..i] == parts[..i];
      var (key, value) := Partition(parts[i]);
      if value.Some? && IsKey(Trim(key)) {
        args := args[Trim(key) := Trim(value.value)];
      }
    }
    assert parts[..|parts|] == parts;
  }

  // The parser's two scans agree with the specification: the second runs on text the first
  // has shown to be enclosed.
  method ParseReference(text: string) returns (r: Option<ToolCallRef>)
    ensures r == Parse(text)
  {
    var matched := MatchTool(text);
    if matched.None? {
      return None;
    }
    var (tool, start) := matched.value;
    var close := Scan(text, start, false);
    if close < 0 {
      return None;
    }
    CloseEncloses(text, start);
    var parts := SplitArgs(text[start..close]);
    var args := CollectArgs(parts);
    return Some(ToolCallRef(tool, args));
  }

  lemma CloseEncloses(text: string, start: nat)
    requires start <= |text|
    ensures var close := ScanFrom(text, start, Fresh, false);
            close >= 0 ==> start <= close < |text| && text[close] == ')' && Enclosed(text[start..close])
  {
    var close := ScanFrom(text, start, Fresh, false);
    ScanIsFirstStop(text, start, false);
    if close >= 0 {
      var inner := text[start..close];
      forall i | 0 <= i < |inner| ensures !StopsAt(inner, 0, i, false) {
        assert inner[0..i] == text[start..start + i];
        assert !StopsAt(text, start, start + i, false);
      }
    }
  }

  // ----- What opens a reference

  ghost predicate Blank(s: string) { forall i :: 0 <= i < |s| ==> IsSpace(s[i]) }

  ghost predicate Tick(s: string) { s == "" || s == "`" }

  // The text opens with blanks, the tool's name, perhaps in backticks, more blanks and a parenthesis,
  // each ending at its position.
  ghost predicate Opening(text: string, tool: string, a: int, b: int, c: int, d: int, start: int) {
    && 0 <= a <= b <= c <= d < start <= |text|
    && Blank(text[0..a]) && Tick(text[a..b]) && text[b..c] == tool && Tick(text[c..d]) && Blank(text[d..start - 1])
    && IsTool(tool) && text[start - 1] == '('
  }

  ghost predicate Opens(text: string, tool: string, start: int) {
    exists a, b, c, d :: Opening(text, tool, a, b, c, d, start)
  }

  lemma {:induction false} SkipSpacesIs(text: string, i: nat, j: nat)
    requires i <= j <= |text| && Blank(text[i..j]) && (j < |text| ==> !IsSpace(text[j]))
    ensures SkipSpaces(text, i) == j
    decreases j - i
  {
    if i < j {
      assert IsSpace(text[i..j][0]) && text[i + 1..j] == text[i..j][1..];
      SkipSpacesIs(text, i + 1, j);
    }
  }

  lemma {:induction false} SkipSpacesTo(text: string, i: nat)
    requires i <= |text|
    ensures var j := SkipSpaces(text, i); Blank(text[i..j]) && (j < |text| ==> !IsSpace(text[j]))
    decreases |text| - i
  {
    if i < |text| && IsSpace(text[i]) {
      SkipSpacesTo(text, i + 1);
      var j := SkipSpaces(text, i);
      assert text[i..j] == [text[i]] + text[i + 1..j];
    }
  }

  lemma {:induction false} SkipToolTo(text: string, i: nat)
    requires i <= |text|
    ensures var j := SkipTool(text, i);
            (forall k :: i <= k < j ==> IsToolChar(text[k])) && (j < |text| ==> !IsToolChar(text[j]))
    decreases |text| - i
  {
    if i < |text| && IsToolChar(text[i]) {
      SkipToolTo(text, i + 1);
    }
  }

  lemma SkipTickTo(text: string, i: nat)
    requires i <= |text|
    ensures Tick(text[i..SkipTick(text, i)])
  {}

  lemma MatchedOpens(text: string)
    requires MatchTool(text).Some?
    ensures var (tool, start) := MatchTool(text).value; Opens(text, tool, start)
  {
    var (tool, start) := MatchTool(text).value;
    var a := SkipSpaces(text, 0);
    var b := SkipTick(text, a);
    var c := SkipTool(text, b);
    var d := SkipTick(text, c);
    SkipSpacesTo(text, 0);
    SkipTickTo(text, a);
    SkipToolTo(text, b);
    SkipTickTo(text, c);
    SkipSpacesTo(text, d);
    assert IsTool(tool) by {
      assert forall k :: 0 <= k < |tool| ==> tool[k] == text[b + k];
    }
    assert Opening(text, tool, a, b, c, d, start);
  }

  // A slice that is a tick or nothing ends where skipping a tick ends, if no tick follows.
  lemma SkipTickIs(text: string, i: nat, j: nat)
    requires i <= j < |text| && Tick(text[i..j]) && text[j] != '`'
    ensures SkipTick(text, i) == j
  {
    if text[i..j] == "`" { assert text[i..j][0] == '`'; }
  }

  // After the name comes a tick, a blank or the parenthesis, none of which belongs to a name.
  lemma NameEnds(text: string, tool: string, a: int, b: int, c: int, d: int, start: int)
    requires Opening(text, tool, a, b, c, d, start)
    ensures !IsToolChar(text[c]) && text[d] != '`' && (text[start - 1] == '(')
    ensures IsLetter(text[b]) && forall k :: b <= k < c ==> IsToolChar(text[k])
  {
    assert text[b] == text[b..c][0];
    forall k | b <= k < c ensures IsToolChar(text[k]) {
      assert text[k] == text[b..c][k - b];
    }
    if d < start - 1 { assert text[d] == text[d..start - 1][0]; }
    if c < d { assert text[c] == text[c..d][0]; }
  }

  // The blanks before the name end where the tick or the name begins.
  lemma LeadEnds(text: string, tool: string, a: int, b: int, c: int, d: int, start: int)
    requires Opening(text, tool, a, b, c, d, start)
    ensures SkipSpaces(text, 0) == a && SkipTick(text, a) == b
  {
    NameEnds(text, tool, a, b, c, d, start);
    if a < b { assert text[a] == text[a..b][0]; }
    SkipSpacesIs(text, 0, a);
    SkipTickIs(text, a, b);
  }

  lemma GapEnds(text: string, tool: string, a: int, b: int, c: int, d: int, start: int)
    requires Opening(text, tool, a, b, c, d, start)
    ensures SkipTool(text, b) == c && SkipTick(text, c) == d && SkipSpaces(text, d) == start - 1
  {
    NameEnds(text, tool, a, b, c, d, start);
    SkipToolStops(text, b, c);
    SkipTickIs(text, c, d);
    SkipSpacesIs(text, d, start - 1);
  }

  lemma OpensMatched(text: string, tool: string, start: int)
    requires Opens(text, tool, start)
    ensures MatchTool(text) == Some((tool, start))
  {
    var a, b, c, d :| Opening(text, tool, a, b, c, d, start);
    LeadEnds(text, tool, a, b, c, d, start);
    GapEnds(text, tool, a, b, c, d, start);
    NameEnds(text, tool, a, b, c, d, start);
  }

  // A reference is a call exactly when it opens with a tool and encloses its arguments; the arguments
  // are those of the text up to the closing parenthesis, and what follows is prose.
  ghost predicate Encloses(text: string, start: int, inner: string) {
    && 0 <= start && start + |inner| < |text|
    && text[start..start + |inner|] == inner && text[start + |inner|] == ')' && Enclosed(inner)
  }

  lemma ParseMeans(text: string, ref: ToolCallRef)
    ensures Parse(text) == Some(ref) <==>
            exists start, inner ::
              Opens(text, ref.tool, start) && Encloses(text, start, inner) && ref.args == ParseArgs(Split(inner))
  {
    if Parse(text) == Some(ref) {
      var (tool, start) := MatchTool(text).value;
      MatchedOpens(text);
      CloseEncloses(text, start);
      var close := ScanFrom(text, start, Fresh, false);
      assert Encloses(text, start, text[start..close]);
    }
    if start, inner :|
      Opens(text, ref.tool, start) && Encloses(text, start, inner) && ref.args == ParseArgs(Split(inner)) {
      OpensMatched(text, ref.tool, start);
      ScanEncloses(text, start, inner);
      ParseWith(text, ref.tool, inner, start);
    }
  }

  lemma ScanEncloses(text: string, start: nat, inner: string)
    requires Encloses(text, start, inner)
    ensures ScanFrom(text, start, Fresh, false) == start + |inner|
  {
    var close := start + |inner|;
    assert text == text[..start] + inner + ")" + text[close + 1..];
    ScanEnclosed(text[..start], inner, text[close + 1..]);
  }

  // ----- Prose among the arguments

  // A part that is no argument: nothing is assigned in it, or nothing that is a key.
  ghost predicate Prose(part: string) {
    '=' !in part || exists k, v :: part == k + "=" + v && '=' !in k && !IsKey(Trim(k))
  }

  lemma {:induction false} PartitionNone(s: string)
    requires '=' !in s
    ensures Partition(s) == (s, None)
  {
    if s != [] {
      assert s[0] in s;
      PartitionNone(s[1..]);
      assert [s[0]] + s[1..] == s;
    }
  }

  lemma ProseLast(parts: seq<string>, part: string)
    requires Prose(part)
    ensures ParseArgs(parts + [part]) == ParseArgs(parts)
  {
    assert (parts + [part])[..|parts|] == parts;
    if '=' !in part {
      PartitionNone(part);
    } else {
      var k, v :| part == k + "=" + v && '=' !in k && !IsKey(Trim(k));
      PartitionAt(k, v);
    }
  }

  // Prose changes no argument, wherever it stands.
  lemma {:induction false} ProseIgnored(before: seq<string>, part: string, after: seq<string>)
    requires Prose(part)
    ensures ParseArgs(before + [part] + after) == ParseArgs(before + after)
    decreases |after|
  {
    if after == [] {
      ProseLast(before, part);
      assert before + [part] + after == before + [part] && before + after == before;
    } else {
      var n := |after| - 1;
      ProseIgnored(before, part, after[..n]);
      assert (before + [part] + after)[..|before| + 1 + n] == before + [part] + after[..n];
      assert (before + after)[..|before| + n] == before + after[..n];
    }
  }

  // ----- Printing

  // A value that no scan can confuse: its brackets and quotes close, and it has no top-level
  // closer or comma.
  ghost predicate Balanced(v: string) {
    Run(Fresh, v) == Fresh && forall i :: 0 <= i < |v| ==> !StopsAt(v, 0, i, true)
  }

  // What stands between the commas of a printed call: an argument or a piece of prose.
  datatype Item = Arg(key: string, value: string) | Note(text: string)

  ghost predicate Printable(items: seq<Item>) {
    forall i :: 0 <= i < |items| ==>
      match items[i]
      case Arg(key, value) => IsKey(key) && Balanced(value) && Trim(value) == value
      case Note(text) => Balanced(text) && Prose(text)
  }

  function Show(item: Item): string {
    match item
    case Arg(key, value) => key + "=" + value
    case Note(text) => text
  }

  function Body(items: seq<Item>): string {
    if items == [] then ""
    else if |items| == 1 then Show(items[0])
    else Body(items[..|items| - 1]) + "," + (" " + Show(items[|items| - 1]))
  }

  function Print(tool: string, items: seq<Item>): string { tool + "(" + Body(items) + ")" }

  // The arguments printed: a repeated key keeps its last value, and prose is none.
  function ArgMap(items: seq<Item>): map<string, string> {
    if items == [] then map[]
    else
      match items[|items| - 1]
      case Arg(key, value) => ArgMap(items[..|items| - 1])[key := value]
      case Note(_) => ArgMap(items[..|items| - 1])
  }

  // ----- The round trip

  // Text the scanner passes through without stopping or being left open.
  lemma BalancedAppend(a: string, b: string)
    requires Balanced(a) && Balanced(b)
    ensures Balanced(a + b)
  {
    RunAppend(Fresh, a, b);
    forall i | 0 <= i < |a + b| ensures !StopsAt(a + b, 0, i, true) {
      if i < |a| {
        assert (a + b)[0..i] == a[0..i];
        assert !StopsAt(a, 0, i, true);
      } else {
        assert (a + b)[0..i] == a + b[0..i - |a|];
        RunAppend(Fresh, a, b[0..i - |a|]);
        assert !StopsAt(b, 0, i - |a|, true);
      }
    }
  }

  predicate Plain(c: char) { !IsQuote(c) && !IsOpen(c) && !IsClose(c) && c != ',' }

  lemma {:induction false} PlainBalanced(s: string)
    requires forall i :: 0 <= i < |s| ==> Plain(s[i])
    ensures Balanced(s)
  {
    if s != [] {
      var init, last := s[..|s| - 1], s[|s| - 1..];
      PlainBalanced(init);
      assert last[..0] == [];
      assert Run(Fresh, last) == Step(Run(Fresh, []), last[0]);
      assert last[0..0] == [];
      assert Balanced(last);
      BalancedAppend(init, last);
      assert init + last == s;
    }
  }

  lemma ShowBalanced(item: Item)
    requires Printable([item])
    ensures Balanced(Show(item)) && Balanced(" " + Show(item))
  {
    assert [item][0] == item;
    PlainBalanced(" ");
    if item.Arg? {
      PlainBalanced(item.key);
      PlainBalanced("=");
      BalancedAppend(item.key, "=");
      BalancedAppend(item.key + "=", item.value);
    }
    BalancedAppend(" ", Show(item));
  }

  // The parts a printed argument list splits into.
  function Pieces(items: seq<Item>): seq<string> {
    if items == [] then [""]
    else if |items| == 1 then [Show(items[0])]
    else Pieces(items[..|items| - 1]) + [" " + Show(items[|items| - 1])]
  }

  lemma SplitWhole(u: string)
    requires Balanced(u)
    ensures Split(u) == [u]
  {
    assert NoCut(u, 0, |u|) by {
      forall i | 0 <= i < |u| ensures !CutAt(u, i) {
        assert u[0..i] == u[..i];
        assert !StopsAt(u, 0, i, true);
      }
    }
    SplitGrows(u, 0, |u|);
    assert u[..|u|] == u;
  }

  lemma SplitAppend(t: string, u: string)
    requires Run(Fresh, t) == Fresh && Balanced(u)
    ensures Split(t + "," + u) == Split(t) + [u]
  {
    var text, n := t + "," + u, |t| + 1;
    assert text[..|t|] == t;
    assert CutAt(text, |t|);
    assert NoCut(text, n, |text|) by {
      AfterCut(text, |t|);
      forall i | n <= i < |text| ensures !CutAt(text, i) {
        Restart(text, n, i);
        assert text[n..i] == u[0..i - n];
        assert !StopsAt(u, 0, i - n, true);
      }
    }
    SplitGrows(text, n, |text|);
    assert text[..|text|] == text && text[n..|text|] == u;
  }

  lemma EnclosedAppend(t: string, u: string)
    requires Enclosed(t) && Balanced(u)
    ensures Enclosed(t + "," + u)
  {
    var text, n := t + "," + u, |t| + 1;
    assert text[..|t|] == t;
    AfterCut(text, |t|);
    forall i | 0 <= i < |text| ensures !StopsAt(text, 0, i, false) {
      assert text[0..i] == text[..i];
      if i < |t| {
        assert text[0..i] == t[0..i];
        assert !StopsAt(t, 0, i, false);
      } else if i >= n {
        Restart(text, n, i);
        assert text[n..i] == u[0..i - n];
        assert !StopsAt(u, 0, i - n, true);
      }
    }
    Restart(text, n, |text|);
    assert text[n..|text|] == u && text[..|text|] == text;
  }

  lemma {:induction false} SplitBody(items: seq<Item>)
    requires Printable(items)
    ensures Enclosed(Body(items)) && Split(Body(items)) == Pieces(items)
  {
    if |items| == 1 {
      assert items == [items[0]];
      ShowBalanced(items[0]);
      BalancedEncloses(Show(items[0]));
      SplitWhole(Show(items[0]));
    } else if |items| > 1 {
      var init, last := items[..|items| - 1], items[|items| - 1];
      SplitBody(init);
      ShowBalanced(last);
      EnclosedAppend(Body(init), " " + Show(last));
      SplitAppend(Body(init), " " + Show(last));
    }
  }

  lemma BalancedEncloses(u: string)
    requires Balanced(u)
    ensures Enclosed(u)
  {
    forall i | 0 <= i < |u| ensures !StopsAt(u, 0, i, false) {
      assert !StopsAt(u, 0, i, true);
    }
  }

  lemma {:induction false} PartitionAt(a: string, v: string)
    requires '=' !in a
    ensures Partition(a + "=" + v) == (a, Some(v))
  {
    if a == [] {
      assert (a + "=" + v)[1..] == v;
    } else {
      assert a[0] in a;
      assert (a + "=" + v)[1..] == a[1..] + "=" + v;
      PartitionAt(a[1..], v);
      assert [a[0]] + a[1..] == a;
    }
  }

  lemma TrimKey(k: string)
    requires IsKey(k)
    ensures Trim(k) == k && Trim(" " + k) == k && '=' !in k && '=' !in " " + k
  {
    assert (" " + k)[1..] == k;
    assert IsWord(k[0]) && IsWord(k[|k| - 1]);
  }

  lemma ParsePair(earlier: seq<string>, lead: string, key: string, value: string)
    requires lead == "" || lead == " "
    requires IsKey(key) && Trim(value) == value
    ensures ParseArgs(earlier + [lead + (key + "=" + value)]) == ParseArgs(earlier)[key := value]
  {
    TrimKey(key);
    var led := if lead == "" then key else " " + key;
    PartitionAt(led, value);
    assert lead + (key + "=" + value) == led + "=" + value;
    assert (earlier + [lead + (key + "=" + value)])[..|earlier|] == earlier;
  }

  // A leading blank makes an argument of no prose.
  lemma ProseLed(text: string)
    requires Prose(text)
    ensures Prose(" " + text)
  {
    if '=' in text {
      var k, v :| text == k + "=" + v && '=' !in k && !IsKey(Trim(k));
      assert (" " + k)[1..] == k;
      assert " " + text == (" " + k) + "=" + v && '=' !in " " + k;
    }
  }

  // One item read back, printed with or without a leading blank.
  lemma ParseItem(earlier: seq<string>, lead: string, item: Item)
    requires (lead == "" || lead == " ") && Printable([item])
    ensures ParseArgs(earlier + [lead + Show(item)]) ==
            match item
            case Arg(key, value) => ParseArgs(earlier)[key := value]
            case Note(_) => ParseArgs(earlier)
  {
    assert [item][0] == item;
    match item {
      case Arg(key, value) => ParsePair(earlier, lead, key, value);
      case Note(text) =>
        ProseLed(text);
        assert lead + text == if lead == "" then text else " " + text;
        ProseLast(earlier, lead + text);
    }
  }

  lemma {:induction false} ParsePieces(items: seq<Item>)
    requires Printable(items)
    ensures ParseArgs(Pieces(items)) == ArgMap(items)
  {
    if items != [] {
      var init, last := items[..|items| - 1], items[|items| - 1];
      assert Printable([last]) by { assert [last][0] == items[|items| - 1]; }
      if |items| == 1 {
        assert init == [];
        ParseItem([], "", last);
        assert "" + Show(last) == Show(last) && [] + [Show(last)] == [Show(last)];
      } else {
        ParsePieces(init);
        ParseItem(Pieces(init), " ", last);
      }
    } else {
      NothingParsed();
    }
  }

  lemma NothingParsed()
    ensures ParseArgs([""]) == map[]
  {
    assert [""][..0] == [];
    assert Partition("") == ("", None);
  }

  lemma {:induction false} SkipToolStops(text: string, i: nat, end: nat)
    requires i <= end < |text| && !IsToolChar(text[end])
    requires forall j :: i <= j < end ==> IsToolChar(text[j])
    ensures SkipTool(text, i) == end
    decreases end - i
  {
    if i < end {
      SkipToolStops(text, i + 1, end);
    }
  }

  lemma MatchPrinted(tool: string, rest: string)
    requires IsTool(tool)
    ensures MatchTool(tool + "(" + rest) == Some((tool, |tool| + 1))
  {
    var text := tool + "(" + rest;
    assert text[0] == tool[0];
    forall j | 0 <= j < |tool| ensures IsToolChar(text[j]) {
      assert text[j] == tool[j];
    }
    SkipToolStops(text, 0, |tool|);
    assert text[0..|tool|] == tool;
  }

  // The scan of enclosed text in its parentheses finds exactly its closer.
  lemma ScanEnclosed(before: string, inner: string, after: string)
    requires Enclosed(inner)
    ensures ScanFrom(before + inner + ")" + after, |before|, Fresh, false) == |before| + |inner|
  {
    var text, start := before + inner + ")" + after, |before|;
    var close := start + |inner|;
    forall i | 0 <= i <= |inner| ensures text[start..start + i] == inner[0..i] {}
    assert inner[0..|inner|] == inner;
    assert StopsAt(text, start, close, false);
    forall j | start <= j < close ensures !StopsAt(text, start, j, false) {
      assert text[start..start + (j - start)] == inner[0..j - start];
      assert !StopsAt(inner, 0, j - start, false);
    }
    assert FirstStop(text, start, close, false);
    ScanIsFirstStop(text, start, false);
  }

  lemma ParseWith(text: string, tool: string, inner: string, start: nat)
    requires MatchTool(text) == Some((tool, start)) && start + |inner| <= |text|
    requires text[start..start + |inner|] == inner
    requires ScanFrom(text, start, Fresh, false) == start + |inner|
    ensures Parse(text) == Some(ToolCallRef(tool, ParseArgs(Split(inner))))
  {}

  lemma Reassociate(tool: string, inner: string, prose: string)
    ensures tool + "(" + inner + ")" + prose == tool + "(" + (inner + ")" + prose)
  {}

  lemma InnerSlice(before: string, inner: string, after: string)
    ensures (before + inner + ")" + after)[|before|..|before| + |inner|] == inner
  {}

  lemma ParseEnclosed(tool: string, inner: string, prose: string)
    requires IsTool(tool) && Enclosed(inner)
    ensures Parse(tool + "(" + inner + ")" + prose) == Some(ToolCallRef(tool, ParseArgs(Split(inner))))
  {
    var before := tool + "(";
    var text := before + inner + ")" + prose;
    assert MatchTool(text) == Some((tool, |before|)) by {
      Reassociate(tool, inner, prose);
      MatchPrinted(tool, inner + ")" + prose);
    }
    assert text[|before|..|before| + |inner|] == inner by { InnerSlice(before, inner, prose); }
    assert ScanFrom(text, |before|, Fresh, false) == |before| + |inner| by { ScanEnclosed(before, inner, prose); }
    ParseWith(text, tool, inner, |before|);
  }

  // Printing a call and parsing it back gives the same call, whatever prose stands among its arguments
  // and follows it.
  lemma RoundTrip(tool: string, items: seq<Item>, prose: string)
    requires IsTool(tool) && Printable(items)
    ensures Parse(Print(tool, items) + prose) == Some(ToolCallRef(tool, ArgMap(items)))
  {
    SplitBody(items);
    ParseEnclosed(tool, Body(items), prose);
    ParsePieces(items);
  }
}

/**
 Which values survive the scanner: nested brackets and quoted text are passed through whole, commas
 and all (evals/benchmarks/evidence_locator.py).
 */
module ReferenceValues {
  import opened Results
  import opened ReferenceScanner
  import opened ReferenceParser

  // Outside quotes, with these brackets open.
  function At(depth: seq<char>): State { State(depth, None, false) }

  // From any such state the text leads back to it, and on the way closes none of the brackets that
  // were open before.
  ghost predicate Neutral(v: string) {
    && (forall d: seq<char> :: Run(At(d), v) == At(d))
    && (forall d: seq<char>, i :: 0 <= i <= |v| ==> d <= Run(At(d), v[..i]).depth)
  }

  ghost predicate Brackets(open: char, close: char) {
    (open == '(' && close == ')') || (open == '[' && close == ']') || (open == '{' && close == '}')
  }

  lemma NothingNeutral()
    ensures Neutral("")
  {}

  // Any character that is no bracket and no quote, a comma in particular.
  lemma CharNeutral(c: char)
    requires c !in "()[]{}\"'"
    ensures Neutral([c])
  {
    forall d: seq<char> ensures Run(At(d), [c]) == At(d) {
      assert [c][..0] == [];
    }
    forall d: seq<char>, i | 0 <= i <= 1 ensures d <= Run(At(d), [c][..i]).depth {
      assert [c][..i] == if i == 0 then [] else [c];
    }
  }

  lemma NeutralAppend(a: string, b: string)
    requires Neutral(a) && Neutral(b)
    ensures Neutral(a + b)
  {
    forall d: seq<char> ensures Run(At(d), a + b) == At(d) {
      RunAppend(At(d), a, b);
    }
    forall d: seq<char>, i | 0 <= i <= |a + b| ensures d <= Run(At(d), (a + b)[..i]).depth {
      if i <= |a| {
        assert (a + b)[..i] == a[..i];
      } else {
        assert (a + b)[..i] == a + b[..i - |a|];
        RunAppend(At(d), a, b[..i - |a|]);
      }
    }
  }

  // One step from a state.
  lemma RunOne(s: State, c: char)
    ensures Run(s, [c]) == Step(s, c)
  {
    assert [c][..0] == [];
  }

  // Inside a group the scanner is below the group's own closer.
  lemma GroupInside(open: char, v: string, close: char, d: seq<char>, i: nat)
    requires Brackets(open, close) && Neutral(v) && 1 <= i <= |v| + 1
    ensures d + [close] <= Run(At(d), ([open] + v + [close])[..i]).depth
    ensures i == |v| + 1 ==> Run(At(d), ([open] + v + [close])[..i]) == At(d + [close])
  {
    assert ([open] + v + [close])[..i] == [open] + v[..i - 1];
    RunAppend(At(d), [open], v[..i - 1]);
    RunOne(At(d), open);
    assert Step(At(d), open) == At(d + [close]);
    assert d + [close] <= Run(At(d + [close]), v[..i - 1]).depth;
    assert i == |v| + 1 ==> v[..i - 1] == v;
  }

  lemma GroupEnds(open: char, v: string, close: char, d: seq<char>)
    requires Brackets(open, close) && Neutral(v)
    ensures Run(At(d), [open] + v + [close]) == At(d)
  {
    var text := [open] + v + [close];
    GroupInside(open, v, close, d, |v| + 1);
    assert text[..|text| - 1] == text[..|v| + 1];
    assert (d + [close])[..|d|] == d;
  }

  // A group: any neutral text in matching brackets.
  lemma GroupNeutral(open: char, v: string, close: char)
    requires Brackets(open, close) && Neutral(v)
    ensures Neutral([open] + v + [close])
  {
    var text := [open] + v + [close];
    forall d: seq<char> ensures Run(At(d), text) == At(d) {
      GroupEnds(open, v, close, d);
    }
    forall d: seq<char>, i | 0 <= i <= |text| ensures d <= Run(At(d), text[..i]).depth {
      if 1 <= i <= |v| + 1 {
        GroupInside(open, v, close, d, i);
      } else {
        assert text[..i] == if i == 0 then [] else text;
        GroupEnds(open, v, close, d);
      }
    }
  }

  // What may stand between two quotes: no such quote and no backslash, except a backslash together
  // with whatever it escapes.
  predicate Quotable(q: char, body: string) {
    || body == ""
    || (body[0] == '\\' && |body| >= 2 && Quotable(q, body[2..]))
    || (body[0] != '\\' && body[0] != q && Quotable(q, body[1..]))
  }

  // In quotes every character is passed, brackets and commas too.
  lemma {:induction false} InQuotes(q: char, body: string, d: seq<char>, i: nat)
    requires (q == '"' || q == '\'') && Quotable(q, body) && i <= |body|
    ensures var s := Run(State(d, Some(q), false), body[..i]); s.quote == Some(q) && s.depth == d
    ensures Run(State(d, Some(q), false), body) == State(d, Some(q), false)
    decreases |body|
  {
    var s := State(d, Some(q), false);
    if body != "" {
      var n := if body[0] == '\\' then 2 else 1;
      var head, rest := body[..n], body[n..];
      EscapeStep(s, q, body, n);
      InQuotes(q, rest, d, if i >= n then i - n else 0);
      assert head + rest == body;
      RunAppend(s, head, rest);
      if i >= n {
        assert body[..i] == head + rest[..i - n];
        RunAppend(s, head, rest[..i - n]);
      } else if i == 1 {
        assert body[..1] == [body[0]];
        RunOne(s, body[0]);
      }
    }
  }

  lemma EscapeStep(s: State, q: char, body: string, n: nat)
    requires s.quote == Some(q) && !s.escaped && (q == '"' || q == '\'')
    requires n == (if body != "" && body[0] == '\\' then 2 else 1) && n <= |body| && (n == 1 ==> body[0] != q)
    ensures Run(s, body[..n]) == s
  {
    RunOne(s, body[0]);
    assert body[..1] == [body[0]];
    if n == 2 {
      assert body[..2][..1] == body[..1] && body[..2][1] == body[1];
    }
  }

  lemma QuoteInside(q: char, body: string, d: seq<char>, i: nat)
    requires (q == '"' || q == '\'') && Quotable(q, body) && 1 <= i <= |body| + 1
    ensures var s := Run(At(d), ([q] + body + [q])[..i]); s.quote == Some(q) && s.depth == d
    ensures i == |body| + 1 ==> !Run(At(d), ([q] + body + [q])[..i]).escaped
  {
    assert ([q] + body + [q])[..i] == [q] + body[..i - 1];
    RunAppend(At(d), [q], body[..i - 1]);
    RunOne(At(d), q);
    InQuotes(q, body, d, i - 1);
    assert i == |body| + 1 ==> body[..i - 1] == body;
  }

  // Quoted text, whatever is in the quotes.
  lemma QuoteNeutral(q: char, body: string)
    requires (q == '"' || q == '\'') && Quotable(q, body)
    ensures Neutral([q] + body + [q])
  {
    var text := [q] + body + [q];
    forall d: seq<char> ensures Run(At(d), text) == At(d) {
      QuoteInside(q, body, d, |body| + 1);
      assert text[..|text| - 1] == text[..|body| + 1];
    }
    forall d: seq<char>, i | 0 <= i <= |text| ensures d <= Run(At(d), text[..i]).depth {
      if 1 <= i <= |body| + 1 {
        QuoteInside(q, body, d, i);
      } else {
        assert text[..i] == if i == 0 then [] else text;
      }
    }
  }

  // ----- As values of a printed call

  // A group is one value: its commas and brackets neither cut nor close anything.
  lemma GroupBalanced(open: char, v: string, close: char)
    requires Brackets(open, close) && Neutral(v)
    ensures Balanced([open] + v + [close])
  {
    var text := [open] + v + [close];
    GroupEnds(open, v, close, []);
    forall i | 0 <= i < |text| ensures !StopsAt(text, 0, i, true) {
      assert text[0..i] == text[..i];
      if 1 <= i {
        GroupInside(open, v, close, [], i);
        assert Run(At([]), text[..i]).depth != [];
      }
    }
  }

  // So is quoted text.
  lemma QuoteBalanced(q: char, body: string)
    requires (q == '"' || q == '\'') && Quotable(q, body)
    ensures Balanced([q] + body + [q])
  {
    var text := [q] + body + [q];
    QuoteNeutral(q, body);
    assert Run(At([]), text) == At([]);
    forall i | 0 <= i < |text| ensures !StopsAt(text, 0, i, true) {
      assert text[0..i] == text[..i];
      if 1 <= i {
        QuoteInside(q, body, [], i);
      }
    }
  }

  // A comma or a closing bracket outside all groups is not part of a value, and a closer inside a
  // group that it does not match is passed over.
  lemma ClosersMean(c: char, d: seq<char>)
    requires c in ")]}"
    ensures StopsAt([c], 0, 0, false) && StopsAt(",", 0, 0, true) && !StopsAt(",", 0, 0, false)
    ensures d != [] && d[|d| - 1] != c ==> Run(At(d), [c]) == At(d)
  {
    RunOne(At(d), c);
    assert [c][0..0] == [] && ","[0..0] == [];
  }

  // Text without brackets and quotes.
  lemma {:induction false} NeutralText(s: string)
    requires forall i :: 0 <= i < |s| ==> s[i] !in "()[]{}\"'"
    ensures Neutral(s)
  {
    if s == "" {
      NothingNeutral();
    } else {
      NeutralText(s[..|s| - 1]);
      CharNeutral(s[|s| - 1]);
      NeutralAppend(s[..|s| - 1], [s[|s| - 1]]);
      assert s[..|s| - 1] + [s[|s| - 1]] == s;
    }
  }
}

/** The string methods the models need, on ASCII text. */
module Text {

  predicate IsSpace(c: char) { c == ' ' || c == '\t' || c == '\n' || c == '\r' }

  function TrimLeft(s: string): string {
    if s != [] && IsSpace(s[0]) then TrimLeft(s[1..]) else s
  }

  function TrimRight(s: string): string {
    if s != [] && IsSpace(s[|s| - 1]) then TrimRight(s[..|s| - 1]) else s
  }

  // `str.strip`.
  function Trim(s: string): string { TrimRight(TrimLeft(s)) }

  function LowerChar(c: char): char { if 'A' <= c <= 'Z' then c + ' ' else c }

  // `str.lower`.
  function Lower(s: string): string { seq(|s|, i requires 0 <= i < |s| => LowerChar(s[i])) }

  lemma {:induction false} TrimLeftTrimmed(s: string)
    ensures var t := TrimLeft(s); t == [] || !IsSpace(t[0])
  {
    if s != [] && IsSpace(s[0]) {
      TrimLeftTrimmed(s[1..]);
    }
  }

  lemma {:induction false} TrimRightTrimmed(s: string)
    ensures var t := TrimRight(s); t <= s && (t == [] || !IsSpace(t[|t| - 1]))
  {
    if s != [] && IsSpace(s[|s| - 1]) {
      TrimRightTrimmed(s[..|s| - 1]);
    }
  }

  // Stripping twice is stripping once.
  lemma TrimTwice(s: string)
    ensures Trim(Trim(s)) == Trim(s)
  {
    TrimLeftTrimmed(s);
    TrimRightTrimmed(TrimLeft(s));
    var t := Trim(s);
    assert t != [] ==> t[0] == TrimLeft(s)[0];
  }

  // Exactly the blanks at both ends go.
  lemma TrimMeans(s: string)
    ensures var t := Trim(s);
            && (exists a, b :: 0 <= a <= b <= |s| && t == s[a..b]
                  && (forall i :: 0 <= i < a || b <= i < |s| ==> IsSpace(s[i])))
            && (t != "" ==> !IsSpace(t[0]) && !IsSpace(t[|t| - 1]))
  {
    var a := TrimLeftCut(s);
    var b := TrimRightCut(TrimLeft(s));
    TrimLeftTrimmed(s);
    TrimRightTrimmed(TrimLeft(s));
    assert Trim(s) == s[a..a + b];
    assert forall i :: a + b <= i < |s| ==> s[i] == TrimLeft(s)[i - a];
    var t := Trim(s);
    assert t != "" ==> t[0] == TrimLeft(s)[0];
  }

  lemma {:induction false} TrimLeftCut(s: string) returns (a: nat)
    ensures a <= |s| && TrimLeft(s) == s[a..] && forall i :: 0 <= i < a ==> IsSpace(s[i])
  {
    a := 0;
    if s != [] && IsSpace(s[0]) {
      var k := TrimLeftCut(s[1..]);
      a := k + 1;
      assert forall i :: 0 < i < a ==> s[i] == s[1..][i - 1];
    }
  }

  lemma {:induction false} TrimRightCut(s: string) returns (b: nat)
    ensures b <= |s| && TrimRight(s) == s[..b] && forall i :: b <= i < |s| ==> IsSpace(s[i])
  {
    b := |s|;
    if s != [] && IsSpace(s[|s| - 1]) {
      b := TrimRightCut(s[..|s| - 1]);
    }
  }

  // Capital letters become small ones, thirty-two places on, and nothing else changes.
  lemma LowerMeans(s: string, i: nat)
    requires i < |s|
    ensures |Lower(s)| == |s|
    ensures Lower(s)[i] as int == if 'A' <= s[i] <= 'Z' then s[i] as int + 32 else s[i] as int
  {}
}

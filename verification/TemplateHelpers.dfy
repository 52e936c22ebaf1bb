/** The string helpers offered to manifest templates (pkg/util/template.go). */
module TemplateHelpers {

  /** strings.Repeat(" ", n) */
  function Spaces(n: nat): (s: string)
    ensures |s| == n && forall i :: 0 <= i < n ==> s[i] == ' '
  {
    seq(n, _ => ' ')
  }

  /** Every line break is followed by n spaces.  strings.Repeat panics on a negative count, hence the nat. */
  function Indent(n: nat, v: string): string {
    if v == "" then ""
    else if v[0] == '\n' then "\n" + Spaces(n) + Indent(n, v[1..])
    else [v[0]] + Indent(n, v[1..])
  }

  /** Spaces and colons are preceded by a backslash; nothing else is touched, backslashes included. */
  function SafePath(v: string): string {
    if v == "" then ""
    else if v[0] == ' ' || v[0] == ':' then ['\\', v[0]] + SafePath(v[1..])
    else [v[0]] + SafePath(v[1..])
  }

  // Indentation, line by line.

  function Lines(v: string): (ls: seq<string>)
    ensures |ls| > 0
  {
    if v == "" then [""]
    else
      var rest := Lines(v[1..]);
      if v[0] == '\n' then [""] + rest else [[v[0]] + rest[0]] + rest[1..]
  }

  function PadAll(n: nat, ls: seq<string>): seq<string> {
    seq(|ls|, i requires 0 <= i < |ls| => Spaces(n) + ls[i])
  }

  lemma {:induction false} LinesAfterSpaces(n: nat, v: string)
    ensures Lines(Spaces(n) + v) == [Spaces(n) + Lines(v)[0]] + Lines(v)[1..]
  {
    if n == 0 {
      assert Spaces(0) + v == v && Spaces(0) + Lines(v)[0] == Lines(v)[0];
    } else {
      var s := Spaces(n) + v;
      assert s[1..] == Spaces(n - 1) + v;
      LinesAfterSpaces(n - 1, v);
      assert [' '] + (Spaces(n - 1) + Lines(v)[0]) == Spaces(n) + Lines(v)[0];
    }
  }

  /** The meaning of indent: the first line stays, every other line gains exactly n leading spaces,
      and no line is added or lost. */
  lemma {:induction false} IndentPadsLines(n: nat, v: string)
    ensures Lines(Indent(n, v)) == [Lines(v)[0]] + PadAll(n, Lines(v)[1..])
  {
    if v != "" {
      var rest := v[1..];
      IndentPadsLines(n, rest);
      var s := Indent(n, v);
      if v[0] == '\n' {
        assert s[1..] == Spaces(n) + Indent(n, rest);
        LinesAfterSpaces(n, Indent(n, rest));
      } else {
        assert s[1..] == Indent(n, rest);
      }
    }
  }

  function JoinLines(ls: seq<string>): string
    requires |ls| > 0
  {
    if |ls| == 1 then ls[0] else ls[0] + "\n" + JoinLines(ls[1..])
  }

  lemma {:induction false} JoinUndoesLines(v: string)
    ensures JoinLines(Lines(v)) == v
  {
    if v != "" {
      JoinUndoesLines(v[1..]);
      var rest := Lines(v[1..]);
      assert v == [v[0]] + v[1..];
      if v[0] != '\n' {
        assert ([[v[0]] + rest[0]] + rest[1..])[1..] == rest[1..];
      }
    }
  }

  /** There are no line breaks within the lines. */
  lemma {:induction false} NoBreaksInLines(v: string)
    ensures forall i :: 0 <= i < |Lines(v)| ==> '\n' !in Lines(v)[i]
  {
    if v != "" {
      NoBreaksInLines(v[1..]);
    }
  }

  lemma PadAllComposes(a: nat, b: nat, ls: seq<string>)
    ensures PadAll(a, PadAll(b, ls)) == PadAll(a + b, ls)
  {
    forall i | 0 <= i < |ls| ensures PadAll(a, PadAll(b, ls))[i] == PadAll(a + b, ls)[i] {
      assert Spaces(a) + (Spaces(b) + ls[i]) == Spaces(a + b) + ls[i];
    }
  }

  lemma PadAllInjective(n: nat, ls: seq<string>, ms: seq<string>)
    requires PadAll(n, ls) == PadAll(n, ms)
    ensures ls == ms
  {
    assert |ls| == |PadAll(n, ls)| == |ms|;
    forall i | 0 <= i < |ls| ensures ls[i] == ms[i] {
      assert Spaces(n) + ls[i] == PadAll(n, ls)[i] == PadAll(n, ms)[i] == Spaces(n) + ms[i];
      assert (Spaces(n) + ls[i])[n..] == ls[i] && (Spaces(n) + ms[i])[n..] == ms[i];
    }
  }

  /** Indenting twice is indenting by the sum. */
  lemma IndentComposes(a: nat, b: nat, v: string)
    ensures Indent(a, Indent(b, v)) == Indent(a + b, v)
  {
    var twice, once := Indent(a, Indent(b, v)), Indent(a + b, v);
    IndentPadsLines(b, v);
    IndentPadsLines(a, Indent(b, v));
    IndentPadsLines(a + b, v);
    PadAllComposes(a, b, Lines(v)[1..]);
    assert Lines(twice) == Lines(once);
    JoinUndoesLines(twice);
    JoinUndoesLines(once);
  }

  lemma IndentIsInjective(n: nat, v: string, w: string)
    ensures Indent(n, v) == Indent(n, w) <==> v == w
  {
    if Indent(n, v) == Indent(n, w) {
      IndentPadsLines(n, v);
      IndentPadsLines(n, w);
      var ls := Lines(Indent(n, v));
      assert PadAll(n, Lines(v)[1..]) == ls[1..] == PadAll(n, Lines(w)[1..]);
      PadAllInjective(n, Lines(v)[1..], Lines(w)[1..]);
      assert Lines(v) == [ls[0]] + Lines(v)[1..] == Lines(w);
      JoinUndoesLines(v);
      JoinUndoesLines(w);
    }
  }

  // Path escaping.

  predicate Special(c: char) { c == ' ' || c == ':' }

  /** Drops the backslash directly before each space or colon. */
  function UnsafePath(s: string): string {
    if s == "" then ""
    else if s[0] == '\\' && |s| > 1 && Special(s[1]) then [s[1]] + UnsafePath(s[2..])
    else [s[0]] + UnsafePath(s[1..])
  }

  /** Escaping can be undone on every string, backslashes in the input included. */
  lemma {:induction false} SafePathRoundTrip(v: string)
    ensures UnsafePath(SafePath(v)) == v
  {
    if v != "" {
      SafePathRoundTrip(v[1..]);
      var s := SafePath(v);
      if Special(v[0]) {
        assert s[2..] == SafePath(v[1..]);
      } else {
        assert s[1..] == SafePath(v[1..]);
        assert |v| > 1 ==> !Special(SafePath(v[1..])[0]);
      }
    }
  }

  lemma SafePathIsInjective(v: string, w: string)
    ensures SafePath(v) == SafePath(w) <==> v == w
  {
    SafePathRoundTrip(v);
    SafePathRoundTrip(w);
  }

  ghost predicate AllEscaped(s: string) {
    forall i :: 0 <= i < |s| && (s[i] == ' ' || s[i] == ':') ==> i > 0 && s[i - 1] == '\\'
  }

  /** The escaped texts are exactly those in which every space or colon directly follows a backslash. */
  lemma {:induction false} SafePathRange(s: string)
    ensures SafePath(UnsafePath(s)) == s <==> AllEscaped(s)
  {
    if s != "" {
      var k := if s[0] == '\\' && |s| > 1 && Special(s[1]) then 2 else 1;
      var t := s[k..];
      SafePathRange(t);
      assert s == s[..k] + t;
      var u := UnsafePath(s);
      assert u[1..] == UnsafePath(t);
      if Special(s[0]) {
        assert SafePath(u)[0] == '\\';
      } else {
        assert SafePath(u) == s[..k] + SafePath(u[1..]);
        assert SafePath(u)[k..] == SafePath(UnsafePath(t));
        AllEscapedTail(s, k);
      }
    }
  }

  lemma AllEscapedTail(s: string, k: nat)
    requires 1 <= k <= |s| && !Special(s[0])
    requires k == 2 <==> s[0] == '\\' && |s| > 1 && Special(s[1])
    requires k == 1 || k == 2
    ensures AllEscaped(s) <==> AllEscaped(s[k..])
  {
    var t := s[k..];
    assert forall i :: k <= i < |s| ==> s[i] == t[i - k];
  }
}

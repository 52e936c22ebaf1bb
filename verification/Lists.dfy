/** Order-preserving removal of duplicates (pkg/util/strings.go). */
module Lists {

  lemma Associate<T>(a: seq<T>, b: seq<T>, c: seq<T>)
    ensures (a + b) + c == a + (b + c)
  {
  }

  lemma InOneMore<T>(s: seq<T>)
    requires s != []
    ensures forall x :: x in s <==> x in s[..|s| - 1] || x == s[|s| - 1]
  {
    assert s == s[..|s| - 1] + [s[|s| - 1]];
  }

  ghost predicate NoRepeats(s: seq<string>) {
    forall i, j :: 0 <= i < j < |s| ==> s[i] != s[j]
  }

  /** The position at which x first occurs in s. */
  function FirstIndex(s: seq<string>, x: string): (i: nat)
    requires x in s
    ensures i < |s| && s[i] == x && x !in s[..i]
  {
    if s[0] == x then 0 else FirstIndex(s[1..], x) + 1
  }

  lemma {:induction false} FirstIndexUnique(s: seq<string>, x: string, i: nat)
    requires i < |s| && s[i] == x && x !in s[..i]
    ensures FirstIndex(s, x) == i
  {
    if i > 0 {
      assert s[..i][1..] == s[1..][..i - 1];
      FirstIndexUnique(s[1..], x, i - 1);
    }
  }

  /** What the caller of RemoveDuplicates wants: each element once, in the order of first appearance. */
  ghost predicate IsDeduplicated(s: seq<string>, r: seq<string>) {
    && NoRepeats(r)
    && (forall x :: x in r <==> x in s)
    && (forall i, j :: 0 <= i < j < |r| ==> FirstIndex(s, r[i]) < FirstIndex(s, r[j]))
  }

  /** The elements of s that do not occur earlier in s. */
  function FirstOccurrences(s: seq<string>): (r: seq<string>)
    ensures forall x :: x in r <==> x in s
  {
    if s == [] then []
    else
      var n := |s| - 1;
      var r := FirstOccurrences(s[..n]);
      assert s == s[..n] + [s[n]];
      if s[n] in s[..n] then r else r + [s[n]]
  }

  function Without(s: seq<string>, drop: seq<string>): (r: seq<string>)
    ensures forall x :: x in r <==> x in s && x !in drop
  {
    if s == [] then []
    else
      var n := |s| - 1;
      var r := Without(s[..n], drop);
      assert s == s[..n] + [s[n]];
      if s[n] in drop then r else r + [s[n]]
  }

  method RemoveDuplicates(input: seq<string>) returns (res: seq<string>)
    ensures res == FirstOccurrences(input)
    ensures IsDeduplicated(input, res)
  {
    var processed: set<string> := {};
    res := [];
    for i := 0 to |input|
      invariant res == FirstOccurrences(input[..i])
      invariant processed == set x | x in input[..i]
    {
      var s := input[i];
      assert input[..i + 1][..i] == input[..i];
      if s !in processed {
        processed := processed + {s};
        res := res + [s];
      }
    }
    assert input[..|input|] == input;
    FirstOccurrencesDeduplicates(input);
  }

  lemma FirstIndexOfPrefix(s: seq<string>, n: nat, x: string)
    requires n <= |s| && x in s[..n]
    ensures FirstIndex(s, x) == FirstIndex(s[..n], x)
  {
    var i := FirstIndex(s[..n], x);
    assert s[..n][..i] == s[..i];
    FirstIndexUnique(s, x, i);
  }

  lemma {:induction false} FirstOccurrencesDeduplicates(s: seq<string>)
    ensures IsDeduplicated(s, FirstOccurrences(s))
  {
    if s != [] {
      var n := |s| - 1;
      var p, x := s[..n], s[n];
      var r := FirstOccurrences(p);
      FirstOccurrencesDeduplicates(p);
      forall y | y in r ensures FirstIndex(s, y) == FirstIndex(p, y) {
        FirstIndexOfPrefix(s, n, y);
      }
      if x !in p {
        FirstIndexUnique(s, x, n);
        forall y | y in r ensures FirstIndex(p, y) < n {}
      }
    }
  }

  /** The description leaves no choice: only one list meets it. */
  lemma {:induction false} DeduplicatedIsUnique(s: seq<string>, r: seq<string>)
    requires IsDeduplicated(s, r)
    ensures r == FirstOccurrences(s)
  {
    FirstOccurrencesDeduplicates(s);
    SortedByKeyUnique(x => if x in s then FirstIndex(s, x) else 0, r, FirstOccurrences(s));
  }

  lemma BothEmpty(a: seq<string>, b: seq<string>)
    requires forall x :: x in a <==> x in b
    ensures a == [] <==> b == []
  {
    if a != [] { assert a[0] in b; }
    if b != [] { assert b[0] in a; }
  }

  lemma {:induction false} SortedByKeyUnique(key: string -> int, a: seq<string>, b: seq<string>)
    requires forall x :: x in a <==> x in b
    requires forall i, j :: 0 <= i < j < |a| ==> key(a[i]) < key(a[j])
    requires forall i, j :: 0 <= i < j < |b| ==> key(b[i]) < key(b[j])
    ensures a == b
  {
    BothEmpty(a, b);
    if a != [] {
      assert a[0] in b;
      assert b[0] in a;
      assert a[0] == b[0];
      assert a[0] !in a[1..] && b[0] !in b[1..];
      assert forall x :: x in a <==> x == a[0] || x in a[1..];
      assert forall x :: x in b <==> x == b[0] || x in b[1..];
      SortedByKeyUnique(key, a[1..], b[1..]);
      assert a == [a[0]] + a[1..] && b == [b[0]] + b[1..];
    }
  }

  lemma Idempotent(s: seq<string>)
    ensures FirstOccurrences(FirstOccurrences(s)) == FirstOccurrences(s)
  {
    FirstOccurrencesDeduplicates(s);
    NoRepeatsIsFixed(FirstOccurrences(s));
  }

  /** A list is left alone exactly when it has no repeats. */
  lemma {:induction false} NoRepeatsIsFixed(s: seq<string>)
    ensures FirstOccurrences(s) == s <==> NoRepeats(s)
  {
    FirstOccurrencesDeduplicates(s);
    if NoRepeats(s) && s != [] {
      NoRepeatsIsFixed(s[..|s| - 1]);
    }
  }

  /** On a concatenation the second half contributes only what the first half lacks. */
  lemma {:induction false} DeduplicationOfConcatenation(a: seq<string>, b: seq<string>)
    ensures FirstOccurrences(a + b) == FirstOccurrences(a) + Without(FirstOccurrences(b), a)
  {
    if b == [] {
      assert a + b == a;
    } else {
      var n := |b| - 1;
      var p, x := b[..n], b[n];
      assert (a + b)[..|a + b| - 1] == a + p;
      DeduplicationOfConcatenation(a, p);
      var r := FirstOccurrences(p);
      if x !in p {
        assert (r + [x])[..|r|] == r;
      }
    }
  }
}

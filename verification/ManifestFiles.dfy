/** Cutting a manifest file into objects (getUnstructuredInYAMLFile in pkg/loader/manifests.go). */
module ManifestFiles {
  import opened Wrappers

  const SEPARATOR := "---"

  predicate StartsWithSeparator(s: string) {
    SEPARATOR <= s
  }

  /** strings.Split(s, "---"): cut at every separator, leftmost first, without overlaps. */
  function Split(s: string): (chunks: seq<string>)
    ensures |chunks| > 0
  {
    if s == "" then [""]
    else if StartsWithSeparator(s) then [""] + Split(s[3..])
    else Extend(s[0], Split(s[1..]))
  }

  function Extend(c: char, chunks: seq<string>): (r: seq<string>)
    requires |chunks| > 0
    ensures |r| == |chunks|
  {
    [[c] + chunks[0]] + chunks[1..]
  }

  function Join(chunks: seq<string>): string
    requires |chunks| > 0
  {
    if |chunks| == 1 then chunks[0] else chunks[0] + SEPARATOR + Join(chunks[1..])
  }

  /** The first separator of s, if any, starts at position n or later. */
  ghost predicate NoSeparatorBefore(s: string, n: nat)
    requires n <= |s|
  {
    forall i :: 0 <= i < n ==> !StartsWithSeparator(s[i..])
  }

  /** The documented meaning of strings.Split: joining restores the text, and every cut is the leftmost possible. */
  ghost predicate IsSplit(s: string, chunks: seq<string>) {
    && |chunks| > 0
    && Join(chunks) == s
    && (forall i :: 0 <= i < |chunks| - 1 ==> NoSeparatorBefore(chunks[i] + SEPARATOR, |chunks[i]|))
    && NoSeparatorBefore(chunks[|chunks| - 1], |chunks[|chunks| - 1]|)
  }

  lemma JoinOfExtend(c: char, chunks: seq<string>)
    requires |chunks| > 0
    ensures Join(Extend(c, chunks)) == [c] + Join(chunks)
  {
    if |chunks| > 1 {
      assert Extend(c, chunks)[1..] == chunks[1..];
      ConsOfConcat(c, chunks[0], SEPARATOR + Join(chunks[1..]));
      ConsOfConcat(c, chunks[0] + SEPARATOR, Join(chunks[1..]));
      ConsOfConcat(c, chunks[0], SEPARATOR);
    }
  }

  lemma ConsOfConcat(c: char, a: string, b: string)
    ensures [c] + (a + b) == ([c] + a) + b
  {
  }

  lemma NoSeparatorBeforeCons(c: char, s: string, n: nat)
    requires n <= |s| && NoSeparatorBefore(s, n) && !StartsWithSeparator([c] + s)
    ensures NoSeparatorBefore([c] + s, n + 1)
  {
    forall i | 0 <= i < n + 1 ensures !StartsWithSeparator(([c] + s)[i..]) {
      assert i > 0 ==> ([c] + s)[i..] == s[i - 1..];
    }
  }

  lemma {:induction false} SplitIsSplit(s: string)
    ensures IsSplit(s, Split(s))
  {
    var r := Split(s);
    if s == "" {
    } else if StartsWithSeparator(s) {
      SplitIsSplit(s[3..]);
      assert s == SEPARATOR + s[3..];
      assert r[1..] == Split(s[3..]);
    } else {
      var t := Split(s[1..]);
      SplitIsSplit(s[1..]);
      JoinOfExtend(s[0], t);
      assert s == [s[0]] + s[1..];
      var head := if |t| == 1 then t[0] else t[0] + SEPARATOR;
      assert head <= s[1..];
      assert [s[0]] + head <= s;
      assert !StartsWithSeparator([s[0]] + head);
      NoSeparatorBeforeCons(s[0], head, |t[0]|);
      assert |t| > 1 ==> r[0] + SEPARATOR == [s[0]] + head;
    }
  }

  /** There is only one such cutting. */
  lemma {:induction false} SplitIsUnique(s: string, chunks: seq<string>)
    requires IsSplit(s, chunks)
    ensures chunks == Split(s)
    decreases |s|
  {
    var first := chunks[0];
    if |chunks| == 1 {
      assert chunks == [first];
      SplitWithoutSeparator(s);
    } else {
      var rest := chunks[1..];
      assert s[|first| + 3..] == Join(rest);
      assert forall i :: 0 <= i < |rest| ==> rest[i] == chunks[i + 1];
      SplitIsUnique(Join(rest), rest);
      SplitAtFirst(first, Join(rest));
    }
  }

  lemma {:induction false} SplitWithoutSeparator(s: string)
    requires NoSeparatorBefore(s, |s|)
    ensures Split(s) == [s]
  {
    if s != "" {
      assert s[0..] == s;
      assert forall i :: 0 <= i < |s[1..]| ==> s[1..][i..] == s[i + 1..];
      SplitWithoutSeparator(s[1..]);
      assert s == [s[0]] + s[1..];
    }
  }

  lemma {:induction false} SplitAtFirst(a: string, b: string)
    requires NoSeparatorBefore(a + SEPARATOR, |a|)
    ensures Split(a + SEPARATOR + b) == [a] + Split(b)
  {
    var s := a + SEPARATOR + b;
    if a == "" {
      assert s[3..] == b;
    } else {
      var t := a[1..];
      assert (a + SEPARATOR)[0..] == a + SEPARATOR;
      assert !StartsWithSeparator(s) by {
        assert forall k :: 0 <= k < 3 ==> s[k] == (a + SEPARATOR)[k];
      }
      forall i | 0 <= i < |t| ensures !StartsWithSeparator((t + SEPARATOR)[i..]) {
        assert (t + SEPARATOR)[i..] == (a + SEPARATOR)[i + 1..];
      }
      SplitAtFirst(t, b);
      assert s[1..] == t + SEPARATOR + b;
      assert a == [a[0]] + t;
    }
  }

  // Concatenation.

  function TrailingDashes(a: string): (n: nat)
    ensures n <= |a|
    ensures forall i :: |a| - n <= i < |a| ==> a[i] == '-'
    ensures n < |a| ==> a[|a| - n - 1] != '-'
  {
    if a != "" && a[|a| - 1] == '-' then TrailingDashes(a[..|a| - 1]) + 1 else 0
  }

  lemma TrailingDashesUnique(a: string, n: nat)
    requires n <= |a| && (forall i :: |a| - n <= i < |a| ==> a[i] == '-') && (n < |a| ==> a[|a| - n - 1] != '-')
    ensures TrailingDashes(a) == n
  {
    var m := TrailingDashes(a);
    assert forall i :: |a| - n <= i < |a| ==> a[i] == '-';
  }

  /** Cutting a text glued to another by a separator gives the pieces of both. */
  predicate Glues(a: string, b: string) {
    Split(a + SEPARATOR + b) == Split(a) + Split(b)
  }

  /** Cutting respects concatenation around a separator exactly when the dashes at the end of the first text
      come in threes (none at all, in particular). */
  lemma {:induction false} SplitOfConcatenation(a: string, b: string)
    ensures Glues(a, b) <==> TrailingDashes(a) % 3 == 0
  {
    if a == "" {
      SplitAtFirst("", b);
    } else if StartsWithSeparator(a) {
      SplitOfConcatenation(a[3..], b);
      GluesAfterSeparator(a, b);
      DashesModuloThree(a);
    } else if a == "-" || a == "--" {
      OneOrTwoDashes(a, b);
    } else {
      SplitOfConcatenation(a[1..], b);
      GluesAfterCharacter(a, b);
      DashesModuloThree(a);
    }
  }

  lemma DashesModuloThree(a: string)
    requires a != "" && a != "-" && a != "--"
    ensures TrailingDashes(if StartsWithSeparator(a) then a[3..] else a[1..]) % 3 == TrailingDashes(a) % 3
  {
    var n := TrailingDashes(a);
    if StartsWithSeparator(a) {
      TrailingDashesUnique(a[3..], if n == |a| then n - 3 else n);
    } else {
      NotAllDashes(a);
      TrailingDashesUnique(a[1..], n);
    }
  }

  lemma NotAllDashes(a: string)
    requires a != "" && a != "-" && a != "--" && !StartsWithSeparator(a)
    ensures TrailingDashes(a) < |a|
  {
    assert |a| == 1 ==> a == [a[0]];
    assert |a| == 2 ==> a == [a[0], a[1]];
  }

  lemma OneOrTwoDashes(a: string, b: string)
    requires a == "-" || a == "--"
    ensures !Glues(a, b)
  {
    assert StartsWithSeparator(a + SEPARATOR + b);
    assert Split(a + SEPARATOR + b)[0] == "" && (Split(a) + Split(b))[0] == Split(a)[0] != "";
  }

  lemma GluesAfterSeparator(a: string, b: string)
    requires StartsWithSeparator(a)
    ensures Glues(a, b) <==> Glues(a[3..], b)
  {
    SplitAfterSeparator(a, b);
    SameHead("", Split(a[3..]), Split(b), Split(a[3..] + SEPARATOR + b));
  }

  lemma GluesAfterCharacter(a: string, b: string)
    requires a != "" && a != "-" && a != "--" && !StartsWithSeparator(a)
    ensures Glues(a, b) <==> Glues(a[1..], b)
  {
    NotAllDashes(a);
    SplitAfterCharacter(a, b, TrailingDashes(a));
    ExtendPrefix(a[0], Split(a[1..]), Split(b), Split(a[1..] + SEPARATOR + b));
  }

  lemma SameHead(x: string, p: seq<string>, q: seq<string>, r: seq<string>)
    ensures [x] + r == [x] + p + q <==> r == p + q
  {
    assert ([x] + r)[1..] == r && ([x] + p + q)[1..] == p + q;
  }

  lemma SplitAfterSeparator(a: string, b: string)
    requires StartsWithSeparator(a)
    ensures Split(a + SEPARATOR + b) == [""] + Split(a[3..] + SEPARATOR + b)
  {
    assert (a + SEPARATOR + b)[3..] == a[3..] + SEPARATOR + b;
  }

  lemma SplitAfterCharacter(a: string, b: string, n: nat)
    requires a != "" && !StartsWithSeparator(a) && n < |a| && a[|a| - n - 1] != '-'
    requires forall i :: |a| - n <= i < |a| ==> a[i] == '-'
    ensures Split(a + SEPARATOR + b) == Extend(a[0], Split(a[1..] + SEPARATOR + b))
  {
    var s := a + SEPARATOR + b;
    assert s[1..] == a[1..] + SEPARATOR + b;
    assert s[|a| - n - 1] == a[|a| - n - 1];
    assert forall i :: 0 <= i < |a| ==> s[i] == a[i];
  }

  lemma ExtendPrefix(c: char, p: seq<string>, q: seq<string>, r: seq<string>)
    requires |p| > 0 && |r| > 0
    ensures Extend(c, r) == Extend(c, p) + q <==> r == p + q
  {
    if Extend(c, r) == Extend(c, p) + q {
      assert r[0] == Extend(c, r)[0][1..] && p[0] == Extend(c, p)[0][1..];
      assert r == [r[0]] + Extend(c, r)[1..];
      assert p + q == [p[0]] + (Extend(c, p) + q)[1..];
    }
  }

  // From chunks to objects.

  /** The three library stages a chunk goes through; None is an error. */
  datatype Stages<!T> = Stages(
    parseTemplate: string -> Option<string>,
    toJSON: string -> Option<string>,
    unmarshal: string -> Option<T>)

  /** The object of one chunk, if it has one. */
  function ObjectOf<T>(st: Stages<T>, chunk: string): Option<T> {
    if chunk == "\n" || chunk == "" then None
    else
      match st.parseTemplate(chunk)
      case None => None
      case Some(replaced) =>
        if replaced == "" then None
        else
          match st.toJSON(replaced)
          case None => None
          case Some(json) => if json == "" then None else st.unmarshal(json)
  }

  function ObjectsOf<T>(st: Stages<T>, chunks: seq<string>): seq<T> {
    if chunks == [] then []
    else
      var n := |chunks| - 1;
      ObjectsOf(st, chunks[..n]) + (match ObjectOf(st, chunks[n]) case Some(o) => [o] case None => [])
  }

  method GetUnstructuredInYAMLFile<T>(st: Stages<T>, fileContents: string) returns (res: seq<T>)
    ensures res == ObjectsOf(st, Split(fileContents))
  {
    res := [];
    var sepYamlfiles := Split(fileContents);
    for i := 0 to |sepYamlfiles|
      invariant res == ObjectsOf(st, sepYamlfiles[..i])
    {
      var f := sepYamlfiles[i];
      assert sepYamlfiles[..i + 1][..i] == sepYamlfiles[..i];
      if f == "\n" || f == "" {
        continue;
      }
      var fReplaced := st.parseTemplate(f);
      if fReplaced.None? {
        continue;
      }
      if |fReplaced.value| == 0 {
        continue;
      }
      var fJSON := st.toJSON(fReplaced.value);
      if fJSON.None? {
        continue;
      }
      if |fJSON.value| == 0 {
        continue;
      }
      var us := st.unmarshal(fJSON.value);
      if us.None? {
        continue;
      }
      res := res + [us.value];
    }
    assert sepYamlfiles[..|sepYamlfiles|] == sepYamlfiles;
  }

  /** The chunk is not empty, no stage fails on it or makes it empty, and the last one yields the object. */
  ghost predicate ChunkGives<T>(st: Stages<T>, chunk: string, o: T) {
    && chunk != "" && chunk != "\n"
    && exists replaced, json ::
         && st.parseTemplate(chunk) == Some(replaced) && replaced != ""
         && st.toJSON(replaced) == Some(json) && json != ""
         && st.unmarshal(json) == Some(o)
  }

  lemma ObjectOfExactly<T>(st: Stages<T>, chunk: string, o: T)
    ensures ObjectOf(st, chunk) == Some(o) <==> ChunkGives(st, chunk, o)
  {
  }

  /** Some chunk of the text gives the object. */
  ghost predicate TextGives<T>(st: Stages<T>, text: string, o: T) {
    exists i :: 0 <= i < |Split(text)| && ChunkGives(st, Split(text)[i], o)
  }

  /** The objects of a list of chunks are exactly those that some chunk gives. */
  lemma {:induction false} ObjectsOfExactly<T>(st: Stages<T>, chunks: seq<string>, o: T)
    ensures o in ObjectsOf(st, chunks) <==> exists i :: 0 <= i < |chunks| && ChunkGives(st, chunks[i], o)
  {
    if chunks != [] {
      var n := |chunks| - 1;
      ObjectsOfExactly(st, chunks[..n], o);
      ObjectOfExactly(st, chunks[n], o);
      assert forall i :: 0 <= i < n ==> chunks[..n][i] == chunks[i];
    }
  }

  lemma {:induction false} ObjectsOfConcatenation<T>(st: Stages<T>, a: seq<string>, b: seq<string>)
    ensures ObjectsOf(st, a + b) == ObjectsOf(st, a) + ObjectsOf(st, b)
  {
    if b == [] {
      assert a + b == a;
    } else {
      assert (a + b)[..|a + b| - 1] == a + b[..|b| - 1];
      ObjectsOfConcatenation(st, a, b[..|b| - 1]);
    }
  }

  /** A failing chunk loses its own object and nothing else: the others stay, in order. */
  lemma FailingChunkIsIsolated<T>(st: Stages<T>, before: seq<string>, chunk: string, after: seq<string>)
    ensures ObjectsOf(st, before + [chunk] + after)
         == ObjectsOf(st, before)
          + (match ObjectOf(st, chunk) case Some(o) => [o] case None => [])
          + ObjectsOf(st, after)
  {
    ObjectsOfConcatenation(st, before + [chunk], after);
    assert (before + [chunk])[..|before|] == before;
  }

  /** A file glued to another gives the objects of both. */
  ghost predicate GluesObjects<T>(st: Stages<T>, a: string, b: string) {
    ObjectsOf(st, Split(a + SEPARATOR + b)) == ObjectsOf(st, Split(a)) + ObjectsOf(st, Split(b))
  }

  /** The objects of two files glued with a separator line are those of the first followed by those of the second. */
  lemma ObjectsOfGluedFiles<T>(st: Stages<T>, a: string, b: string)
    requires TrailingDashes(a) % 3 == 0
    ensures GluesObjects(st, a, b)
  {
    SplitOfConcatenation(a, b);
    ObjectsOfConcatenation(st, Split(a), Split(b));
  }

  /** The last chunk of a text glued to "b". */
  function LastGluedChunk(a: string): string {
    var chunks := Split(a + SEPARATOR + "b");
    chunks[|chunks| - 1]
  }

  /** If the first text ends in dashes that do not come in threes, some of them move to what follows. */
  lemma {:induction false} DashesMove(a: string)
    requires TrailingDashes(a) % 3 != 0
    ensures |LastGluedChunk(a)| > 1
  {
    if a == "-" || a == "--" {
      LoneDashesMove(a);
    } else {
      DashesModuloThree(a);
      if StartsWithSeparator(a) {
        DashesMove(a[3..]);
        SplitAfterSeparator(a, "b");
      } else {
        DashesMove(a[1..]);
        LastAfterCharacter(a);
      }
    }
  }

  lemma TooShortToCut(s: string)
    requires |s| <= 3 && (|s| == 3 ==> s[2] != '-')
    ensures Split(s) == [s]
  {
    forall i | 0 <= i < |s| ensures !StartsWithSeparator(s[i..]) {
      assert |s[i..]| >= 3 ==> s[i..][2] != '-';
    }
    SplitWithoutSeparator(s);
  }

  lemma LoneDashesMove(a: string)
    requires a == "-" || a == "--"
    ensures |LastGluedChunk(a)| > 1
  {
    var s := a + SEPARATOR + "b";
    assert StartsWithSeparator(s) && s[3..] == a + "b";
    TooShortToCut(a + "b");
  }

  lemma LastAfterCharacter(a: string)
    requires a != "" && a != "-" && a != "--" && !StartsWithSeparator(a)
    ensures |LastGluedChunk(a)| >= |LastGluedChunk(a[1..])|
  {
    NotAllDashes(a);
    SplitAfterCharacter(a, "b", TrailingDashes(a));
  }

  lemma LastObject<T>(st: Stages<T>, chunks: seq<string>)
    requires chunks != [] && ObjectOf(st, chunks[|chunks| - 1]).Some?
    ensures var r := ObjectsOf(st, chunks);
            r != [] && r[|r| - 1] == ObjectOf(st, chunks[|chunks| - 1]).value
  {
  }

  lemma MovedDashesChangeAnObject(a: string)
    requires TrailingDashes(a) % 3 != 0
    ensures !GluesObjects(Stages(s => Some(s), s => Some(s), s => Some(s)), a, "b")
  {
    var st: Stages<string> := Stages(s => Some(s), s => Some(s), s => Some(s));
    DashesMove(a);
    LastObject(st, Split(a + SEPARATOR + "b"));
    TooShortToCut("b");
    LastObject(st, ["b"]);
  }

  /** A file glued to any other gives the objects of both, whatever the library stages do, exactly when the dashes at
      its end come in threes. */
  lemma ObjectsOfGluedFilesExactly(a: string)
    ensures (forall b, st: Stages<string> :: GluesObjects(st, a, b)) <==> TrailingDashes(a) % 3 == 0
  {
    if TrailingDashes(a) % 3 == 0 {
      forall b, st: Stages<string> ensures GluesObjects(st, a, b) {
        ObjectsOfGluedFiles(st, a, b);
      }
    } else {
      MovedDashesChangeAnObject(a);
    }
  }

  /** Without that condition an object can change: "a-" glued to "b" is read as "a" and "-b". */
  lemma GluingCanMoveADash()
    ensures var st := Stages(s => Some(s), s => Some(s), s => Some(s));
            && ObjectsOf(st, Split("a-" + SEPARATOR + "b")) == ["a", "-b"]
            && ObjectsOf(st, Split("a-")) + ObjectsOf(st, Split("b")) == ["a-", "b"]
  {
    var st: Stages<string> := Stages(s => Some(s), s => Some(s), s => Some(s));
    DashGoesToB();
    ObjectsOfPair(st, "a", "-b");
    TooShortToCut("a-");
    TooShortToCut("b");
    ObjectsOfConcatenation(st, ["a-"], ["b"]);
    assert ["a-"] + ["b"] == ["a-", "b"];
    ObjectsOfPair(st, "a-", "b");
  }

  lemma DashGoesToB()
    ensures Split("a-" + SEPARATOR + "b") == ["a", "-b"]
  {
    assert !StartsWithSeparator(("a" + SEPARATOR)[0..]) by { assert ("a" + SEPARATOR)[0] == 'a'; }
    SplitAtFirst("a", "-b");
    TooShortToCut("-b");
    assert "a-" + SEPARATOR + "b" == "a" + SEPARATOR + "-b";
  }

  lemma ObjectsOfPair<T>(st: Stages<T>, x: string, y: string)
    requires ObjectOf(st, x).Some? && ObjectOf(st, y).Some?
    ensures ObjectsOf(st, [x, y]) == [ObjectOf(st, x).value, ObjectOf(st, y).value]
  {
    assert [x, y][..1] == [x] && [x][..0] == [];
    assert ObjectsOf(st, [x]) == [ObjectOf(st, x).value];
  }
}

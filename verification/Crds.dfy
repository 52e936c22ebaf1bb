/** Custom resource definitions and the directories they are read from (pkg/loader/crd.go). */
module Crds {
  import opened Wrappers
  import opened Names
  import opened Lists
  import opened ApiServer

  /** Everything of a CRD's spec but the validation schema. */
  datatype Shape = Shape(group: string, version: string, kind: string, plural: string, rest: string)

  datatype Crd = Crd(namespace: string, name: string, shape: Shape, validation: string)

  type CrdsSet = map<string, Crd>

  function NamespacedObjToString(crd: Crd): string {
    NamespacedNameToString(NamespacedName(crd.namespace, crd.name))
  }

  function GroupVersionOf(crd: Crd): GroupVersion {
    GroupVersion(crd.shape.group, crd.shape.version)
  }

  // Files and directories.

  /** A file of a directory; the contents are None when reading fails. */
  datatype File = File(name: string, contents: Option<string>)

  /** What ioutil.ReadDir finds at a path: files in name order, no such path, or some other error. */
  datatype Directory = Listing(files: seq<File>) | Missing | Unreadable

  type FileSystem = string -> Directory

  /** filepath.Ext: the suffix from the last dot of a file name, or nothing. */
  function Ext(name: string): string {
    if name == "" then ""
    else if name[|name| - 1] == '.' then "."
    else
      var e := Ext(name[..|name| - 1]);
      if e == "" then "" else e + [name[|name| - 1]]
  }

  const CRD_EXTS := {".json", ".yaml", ".yml"}

  datatype FileOutcome = Skipped | Broken | Read(crd: Crd)

  /** What one file contributes: only whitelisted files are parsed, and only real CRDs are kept. */
  function Outcome(unmarshal: string -> Option<Crd>, file: File): FileOutcome {
    if Ext(file.name) !in CRD_EXTS then Skipped
    else if file.contents.None? then Broken
    else
      match unmarshal(file.contents.value)
      case None => Broken
      case Some(crd) => if crd.shape.kind == "" || crd.shape.group == "" then Skipped else Read(crd)
  }

  /** The CRDs of a list of files; one broken file fails the whole. */
  function CrdsOf(unmarshal: string -> Option<Crd>, files: seq<File>): Option<seq<Crd>> {
    if files == [] then Some([])
    else
      var n := |files| - 1;
      var before := CrdsOf(unmarshal, files[..n]);
      if before.None? then None
      else
        match Outcome(unmarshal, files[n])
        case Skipped => before
        case Broken => None
        case Read(crd) => Some(before.value + [crd])
  }

  method ReadCRDs(fs: FileSystem, unmarshal: string -> Option<Crd>, path: string) returns (r: Option<seq<Crd>>)
    ensures r == match fs(path)
                 case Listing(files) => CrdsOf(unmarshal, files)
                 case _ => None
  {
    var dir := fs(path);
    if !dir.Listing? {
      return None;
    }
    var files := dir.files;
    var crds: seq<Crd> := [];
    for i := 0 to |files|
      invariant CrdsOf(unmarshal, files[..i]) == Some(crds)
    {
      assert files[..i + 1][..i] == files[..i];
      BrokenPrefix(unmarshal, files, i + 1);
      if Ext(files[i].name) !in CRD_EXTS {
        continue;
      }
      if files[i].contents.None? {
        return None;
      }
      var crd := unmarshal(files[i].contents.value);
      if crd.None? {
        return None;
      }
      if crd.value.shape.kind == "" || crd.value.shape.group == "" {
        continue;
      }
      crds := crds + [crd.value];
    }
    assert files[..|files|] == files;
    return Some(crds);
  }

  // What counts in a directory.

  predicate EndsWith(s: string, suffix: string) {
    |suffix| <= |s| && s[|s| - |suffix|..] == suffix
  }

  lemma {:induction false} ExtAfterDot(stem: string, rest: string)
    requires '.' !in rest && rest != ""
    ensures Ext(stem + "." + rest) == "." + rest
  {
    var name, n := stem + "." + rest, |rest| - 1;
    assert name[|name| - 1] == rest[n] && rest[n] in rest;
    assert name[..|name| - 1] == stem + "." + rest[..n];
    if n > 0 {
      ExtAfterDot(stem, rest[..n]);
    } else {
      assert name[..|name| - 1] == stem + ".";
      assert Ext(stem + ".") == ".";
    }
    assert "." + rest == "." + rest[..n] + [rest[n]];
  }

  lemma {:induction false} ExtIsEnding(name: string)
    ensures EndsWith(name, Ext(name))
  {
    if name != "" && name[|name| - 1] != '.' {
      ExtIsEnding(name[..|name| - 1]);
    }
  }

  /** The files that count are those whose names end in one of three ways. */
  predicate Counts(name: string) {
    EndsWith(name, ".json") || EndsWith(name, ".yaml") || EndsWith(name, ".yml")
  }

  lemma CountsExactly(name: string)
    ensures Ext(name) in CRD_EXTS <==> Counts(name)
  {
    ExtIs(name, ".json");
    ExtIs(name, ".yaml");
    ExtIs(name, ".yml");
  }

  lemma ExtIs(name: string, ending: string)
    requires |ending| > 1 && ending[0] == '.' && '.' !in ending[1..]
    ensures Ext(name) == ending <==> EndsWith(name, ending)
  {
    ExtIsEnding(name);
    if EndsWith(name, ending) {
      var stem := name[..|name| - |ending|];
      assert name == stem + "." + ending[1..];
      ExtAfterDot(stem, ending[1..]);
    }
  }

  /** The file cannot be read or decoded, and counts. */
  predicate Breaks(unmarshal: string -> Option<Crd>, file: File) {
    Counts(file.name) && (file.contents.None? || unmarshal(file.contents.value).None?)
  }

  /** The file counts and holds this CRD; one without a kind or a group is none. */
  predicate Gives(unmarshal: string -> Option<Crd>, file: File, crd: Crd) {
    && Counts(file.name)
    && file.contents.Some? && unmarshal(file.contents.value) == Some(crd)
    && crd.shape.kind != "" && crd.shape.group != ""
  }

  lemma OutcomeExactly(unmarshal: string -> Option<Crd>, file: File)
    ensures Outcome(unmarshal, file) == Broken <==> Breaks(unmarshal, file)
    ensures forall crd :: Outcome(unmarshal, file) == Read(crd) <==> Gives(unmarshal, file, crd)
  {
    CountsExactly(file.name);
  }

  /** Reading a list of files fails exactly when one breaks, and otherwise gives exactly the CRDs that they hold. */
  lemma CrdsOfExactly(unmarshal: string -> Option<Crd>, files: seq<File>)
    ensures CrdsOf(unmarshal, files).None? <==> exists f :: f in files && Breaks(unmarshal, f)
    ensures CrdsOf(unmarshal, files).Some? ==>
              forall crd :: crd in CrdsOf(unmarshal, files).value
                       <==> exists f :: f in files && Gives(unmarshal, f, crd)
  {
    CrdsOfFails(unmarshal, files);
    if CrdsOf(unmarshal, files).Some? {
      forall crd
        ensures crd in CrdsOf(unmarshal, files).value <==> exists f :: f in files && Gives(unmarshal, f, crd)
      {
        CrdsOfHolds(unmarshal, files, crd);
      }
    }
  }

  lemma {:induction false} CrdsOfFails(unmarshal: string -> Option<Crd>, files: seq<File>)
    ensures CrdsOf(unmarshal, files).None? <==> exists f :: f in files && Breaks(unmarshal, f)
  {
    if files != [] {
      CrdsOfFails(unmarshal, files[..|files| - 1]);
      OutcomeExactly(unmarshal, files[|files| - 1]);
      InOneMore(files);
    }
  }

  lemma {:induction false} CrdsOfHolds(unmarshal: string -> Option<Crd>, files: seq<File>, crd: Crd)
    requires CrdsOf(unmarshal, files).Some?
    ensures crd in CrdsOf(unmarshal, files).value <==> exists f :: f in files && Gives(unmarshal, f, crd)
  {
    if files != [] {
      var last := files[|files| - 1];
      CrdsOfHolds(unmarshal, files[..|files| - 1], crd);
      OutcomeExactly(unmarshal, last);
      assert Outcome(unmarshal, last) == Read(crd) <==> Gives(unmarshal, last, crd);
      InOneMore(files);
    }
  }

  /** And in their order. */
  lemma {:induction false} CrdsOfConcatenation(unmarshal: string -> Option<Crd>, a: seq<File>, b: seq<File>)
    ensures var x, y := CrdsOf(unmarshal, a), CrdsOf(unmarshal, b);
            CrdsOf(unmarshal, a + b) == if x.None? || y.None? then None else Some(x.value + y.value)
  {
    if b == [] {
      assert a + b == a;
      assert CrdsOf(unmarshal, a).Some? ==> CrdsOf(unmarshal, a).value + [] == CrdsOf(unmarshal, a).value;
    } else {
      assert (a + b)[..|a + b| - 1] == a + b[..|b| - 1];
      var n := |b| - 1;
      CrdsOfConcatenation(unmarshal, a, b[..n]);
      var x, y := CrdsOf(unmarshal, a), CrdsOf(unmarshal, b[..n]);
      if x.Some? && y.Some? && Outcome(unmarshal, b[n]).Read? {
        Associate(x.value, y.value, [Outcome(unmarshal, b[n]).crd]);
      }
    }
  }

  lemma {:induction false} BrokenPrefix(unmarshal: string -> Option<Crd>, files: seq<File>, n: nat)
    requires n <= |files|
    ensures CrdsOf(unmarshal, files[..n]).None? ==> CrdsOf(unmarshal, files).None?
  {
    if n == |files| {
      assert files[..n] == files;
    } else {
      assert files[..|files| - 1][..n] == files[..n];
      BrokenPrefix(unmarshal, files[..|files| - 1], n);
    }
  }

  // Several directories.

  /** The CRDs a path contributes: none if it may be missing and is, and None for an error. */
  function Contribution(fs: FileSystem, unmarshal: string -> Option<Crd>, strict: bool, path: string)
    : Option<seq<Crd>>
  {
    match fs(path)
    case Listing(files) => CrdsOf(unmarshal, files)
    case Missing => if strict then None else Some([])
    case Unreadable => None
  }

  /** All contributions in the order of the paths. */
  function Contributions(fs: FileSystem, unmarshal: string -> Option<Crd>, strict: bool, paths: seq<string>)
    : Option<seq<Crd>>
  {
    if paths == [] then Some([])
    else
      var n := |paths| - 1;
      var before := Contributions(fs, unmarshal, strict, paths[..n]);
      var last := Contribution(fs, unmarshal, strict, paths[n]);
      if before.None? || last.None? then None else Some(before.value + last.value)
  }

  /** Later CRDs override earlier ones with the same printed name. */
  function ByName(crds: seq<Crd>): CrdsSet {
    if crds == [] then map[]
    else
      var last := crds[|crds| - 1];
      ByName(crds[..|crds| - 1])[NamespacedObjToString(last) := last]
  }

  /** What readCRDFiles is meant to find: the distinct paths, in order, the last writer of a name winning. */
  function CrdsIn(fs: FileSystem, unmarshal: string -> Option<Crd>, strict: bool, paths: seq<string>): Option<CrdsSet> {
    match Contributions(fs, unmarshal, strict, FirstOccurrences(paths))
    case None => None
    case Some(all) => Some(ByName(all))
  }

  /** The inner loop of readCRDFiles. */
  method AddCRDs(crds: CrdsSet, found: seq<Crd>) returns (r: CrdsSet)
    ensures r == crds + ByName(found)
  {
    r := crds;
    for j := 0 to |found|
      invariant r == crds + ByName(found[..j])
    {
      assert found[..j + 1][..j] == found[..j];
      r := r[NamespacedObjToString(found[j]) := found[j]];
    }
    assert found[..|found|] == found;
  }

  method ReadCRDFiles(fs: FileSystem, unmarshal: string -> Option<Crd>, errorIfPathMissing: bool, paths: seq<string>)
    returns (r: Option<CrdsSet>)
    ensures r == CrdsIn(fs, unmarshal, errorIfPathMissing, paths)
  {
    var crds: CrdsSet := map[];
    var distinct := RemoveDuplicates(paths);
    ghost var all: seq<Crd> := [];
    for i := 0 to |distinct|
      invariant Contributions(fs, unmarshal, errorIfPathMissing, distinct[..i]) == Some(all)
      invariant crds == ByName(all)
    {
      var path := distinct[i];
      NextContribution(fs, unmarshal, errorIfPathMissing, distinct, i, all);
      if !errorIfPathMissing && fs(path).Missing? {
        continue;
      }
      var found := ReadCRDs(fs, unmarshal, path);
      if found.None? {
        return None;
      }
      crds := AddCRDs(crds, found.value);
      ByNameOfConcatenation(all, found.value);
      all := all + found.value;
    }
    assert distinct[..|distinct|] == distinct;
    return Some(crds);
  }

  lemma NextContribution(fs: FileSystem, unmarshal: string -> Option<Crd>, strict: bool,
                         paths: seq<string>, i: nat, all: seq<Crd>)
    requires i < |paths| && Contributions(fs, unmarshal, strict, paths[..i]) == Some(all)
    ensures match Contribution(fs, unmarshal, strict, paths[i])
            case None => Contributions(fs, unmarshal, strict, paths).None?
            case Some(more) =>
              && Contributions(fs, unmarshal, strict, paths[..i + 1]) == Some(all + more)
              && (more == [] ==> all + more == all)
  {
    assert paths[..i + 1][..i] == paths[..i];
    FailingPrefix(fs, unmarshal, strict, paths, i + 1);
  }

  lemma {:induction false} FailingPrefix(fs: FileSystem, unmarshal: string -> Option<Crd>, strict: bool,
                                         paths: seq<string>, n: nat)
    requires n <= |paths|
    ensures Contributions(fs, unmarshal, strict, paths[..n]).None? ==> Contributions(fs, unmarshal, strict, paths).None?
  {
    if n == |paths| {
      assert paths[..n] == paths;
    } else {
      assert paths[..|paths| - 1][..n] == paths[..n];
      FailingPrefix(fs, unmarshal, strict, paths[..|paths| - 1], n);
    }
  }

  /** A path fails when it cannot be listed, or a file in it breaks; a missing one fails only if that is an error. */
  ghost predicate PathFails(fs: FileSystem, unmarshal: string -> Option<Crd>, strict: bool, path: string) {
    match fs(path)
    case Listing(files) => exists f :: f in files && Breaks(unmarshal, f)
    case Missing => strict
    case Unreadable => true
  }

  /** A file of that path gives the CRD. */
  ghost predicate PathGives(fs: FileSystem, unmarshal: string -> Option<Crd>, path: string, crd: Crd) {
    fs(path).Listing? && exists f :: f in fs(path).files && Gives(unmarshal, f, crd)
  }

  lemma ContributionExactly(fs: FileSystem, unmarshal: string -> Option<Crd>, strict: bool, path: string)
    ensures Contribution(fs, unmarshal, strict, path).None? <==> PathFails(fs, unmarshal, strict, path)
    ensures Contribution(fs, unmarshal, strict, path).Some? ==>
              forall crd :: crd in Contribution(fs, unmarshal, strict, path).value
                       <==> PathGives(fs, unmarshal, path, crd)
  {
    if fs(path).Listing? {
      CrdsOfExactly(unmarshal, fs(path).files);
    }
  }

  lemma {:induction false} ContributionsFail(fs: FileSystem, unmarshal: string -> Option<Crd>, strict: bool,
                                             paths: seq<string>)
    ensures Contributions(fs, unmarshal, strict, paths).None?
       <==> exists p :: p in paths && PathFails(fs, unmarshal, strict, p)
  {
    if paths != [] {
      ContributionsFail(fs, unmarshal, strict, paths[..|paths| - 1]);
      ContributionExactly(fs, unmarshal, strict, paths[|paths| - 1]);
      InOneMore(paths);
    }
  }

  lemma {:induction false} ContributionsHold(fs: FileSystem, unmarshal: string -> Option<Crd>, strict: bool,
                                             paths: seq<string>, crd: Crd)
    requires Contributions(fs, unmarshal, strict, paths).Some?
    ensures crd in Contributions(fs, unmarshal, strict, paths).value
       <==> exists p :: p in paths && PathGives(fs, unmarshal, p, crd)
  {
    if paths != [] {
      ContributionsHold(fs, unmarshal, strict, paths[..|paths| - 1], crd);
      ContributionExactly(fs, unmarshal, strict, paths[|paths| - 1]);
      InOneMore(paths);
    }
  }

  /** Reading the directories fails exactly when one of them does.  Otherwise whatever is in the table comes from a
      file, and every CRD in a file has an entry in the table, or one that replaces it there. */
  lemma TableComesFromFiles(fs: FileSystem, unmarshal: string -> Option<Crd>, strict: bool, paths: seq<string>)
    ensures var table := CrdsIn(fs, unmarshal, strict, paths);
            && (table.None? <==> exists p :: p in paths && PathFails(fs, unmarshal, strict, p))
            && (table.Some? ==>
                  && (forall k :: k in table.value ==>
                        exists p :: p in paths && PathGives(fs, unmarshal, p, table.value[k]))
                  && (forall p, crd :: p in paths && PathGives(fs, unmarshal, p, crd) ==>
                        NamespacedObjToString(crd) in table.value))
  {
    var distinct := FirstOccurrences(paths);
    ContributionsFail(fs, unmarshal, strict, distinct);
    var all := Contributions(fs, unmarshal, strict, distinct);
    if all.Some? {
      forall crd ensures crd in all.value <==> exists p :: p in distinct && PathGives(fs, unmarshal, p, crd) {
        ContributionsHold(fs, unmarshal, strict, distinct, crd);
      }
      forall k | k in ByName(all.value) ensures ByName(all.value)[k] in all.value {
        ByNameTakesTheLast(all.value, k);
      }
      forall crd | crd in all.value ensures NamespacedObjToString(crd) in ByName(all.value) {
        ByNameTakesTheLast(all.value, NamespacedObjToString(crd));
      }
    }
  }

  // Precedence.

  /** As in every name that the server accepts. */
  predicate SlashFree(crd: Crd) {
    '/' !in crd.namespace && '/' !in crd.name
  }

  predicate SameObject(a: Crd, b: Crd) {
    a.namespace == b.namespace && a.name == b.name
  }

  /** CRDs share an entry of the table exactly when they agree in namespace and name. */
  lemma EntriesAreObjects(a: Crd, b: Crd)
    requires SlashFree(a) && SlashFree(b)
    ensures NamespacedObjToString(a) == NamespacedObjToString(b) <==> SameObject(a, b)
  {
    var x, y := NamespacedName(a.namespace, a.name), NamespacedName(b.namespace, b.name);
    if a.namespace != "" && b.namespace != "" {
      PrintIsInjective(x, y);
    } else if a.namespace != "" {
      assert NamespacedNameToString(x)[|a.namespace|] == '/';
    } else if b.namespace != "" {
      assert NamespacedNameToString(y)[|b.namespace|] == '/';
    }
  }

  /** No later CRD of the list is for the same object. */
  ghost predicate IsNotReplaced(crds: seq<Crd>, i: nat)
    requires i < |crds|
  {
    forall j :: i < j < |crds| ==> !SameObject(crds[i], crds[j])
  }

  /** The table holds exactly the CRDs that no later one with the same namespace and name replaces. */
  lemma TableIsTheLastOfEach(crds: seq<Crd>, crd: Crd)
    requires forall c :: c in crds ==> SlashFree(c)
    ensures crd in ByName(crds).Values <==> exists i: nat :: i < |crds| && crds[i] == crd && IsNotReplaced(crds, i)
  {
    if crd in ByName(crds).Values {
      var k :| k in ByName(crds) && ByName(crds)[k] == crd;
      var i := IndexInFiles(crds, k);
      StaysExactly(crds, i);
    }
    if i: nat :| i < |crds| && crds[i] == crd && IsNotReplaced(crds, i) {
      StaysExactly(crds, i);
      StaysInTheTable(crds, i);
    }
  }

  lemma StaysExactly(crds: seq<Crd>, i: nat)
    requires i < |crds| && forall c :: c in crds ==> SlashFree(c)
    ensures Stays(crds, i) <==> IsNotReplaced(crds, i)
  {
    forall j | i < j < |crds|
      ensures NamespacedObjToString(crds[j]) == NamespacedObjToString(crds[i]) <==> SameObject(crds[i], crds[j])
    {
      EntriesAreObjects(crds[i], crds[j]);
    }
  }

  ghost predicate IsLastAt(crds: seq<Crd>, k: string, i: nat) {
    && i < |crds|
    && NamespacedObjToString(crds[i]) == k
    && forall j :: i < j < |crds| ==> NamespacedObjToString(crds[j]) != k
  }

  /** crd is the last one in the list with the printed name k. */
  ghost predicate IsLastNamed(crds: seq<Crd>, k: string, crd: Crd) {
    exists i: nat :: IsLastAt(crds, k, i) && crds[i] == crd
  }

  /** The table has an entry for exactly the printed names in the list, and it is the last CRD of that name. */
  lemma {:induction false} ByNameTakesTheLast(crds: seq<Crd>, k: string)
    ensures k !in ByName(crds) ==> forall i :: 0 <= i < |crds| ==> NamespacedObjToString(crds[i]) != k
    ensures k in ByName(crds) ==> IsLastNamed(crds, k, ByName(crds)[k])
  {
    if crds != [] {
      var n := |crds| - 1;
      var init := crds[..n];
      ByNameTakesTheLast(init, k);
      assert forall j :: 0 <= j < n ==> init[j] == crds[j];
      if k == NamespacedObjToString(crds[n]) {
        assert IsLastAt(crds, k, n);
      } else if k in ByName(init) {
        var i: nat :| IsLastAt(init, k, i) && init[i] == ByName(init)[k];
        assert IsLastAt(crds, k, i);
      }
    }
  }

  /** No later CRD of the list prints like the i-th. */
  ghost predicate Stays(crds: seq<Crd>, i: nat)
    requires i < |crds|
  {
    IsLastAt(crds, NamespacedObjToString(crds[i]), i)
  }

  lemma StaysInTheTable(crds: seq<Crd>, i: nat)
    requires i < |crds| && Stays(crds, i)
    ensures var k := NamespacedObjToString(crds[i]); k in ByName(crds) && ByName(crds)[k] == crds[i]
  {
    var k := NamespacedObjToString(crds[i]);
    ByNameTakesTheLast(crds, k);
    var j: nat :| IsLastAt(crds, k, j) && crds[j] == ByName(crds)[k];
    assert i == j;
  }

  lemma IndexInFiles(crds: seq<Crd>, k: string) returns (i: nat)
    requires k in ByName(crds)
    ensures i < |crds| && Stays(crds, i) && crds[i] == ByName(crds)[k]
  {
    ByNameTakesTheLast(crds, k);
    i :| IsLastAt(crds, k, i) && crds[i] == ByName(crds)[k];
  }

  /** Two CRDs of one name share their entry exactly when their files give the same namespace, although the server,
      for which CRDs have none, takes them for the same object. */
  lemma NamespacesSeparateEntries(a: Crd, b: Crd)
    requires a.name == b.name
    ensures |ByName([a, b])| == (if a.namespace == b.namespace then 1 else 2)
    ensures NamespacedObjToString(b) in ByName([a, b]) && ByName([a, b])[NamespacedObjToString(b)] == b
    ensures a.namespace != b.namespace ==>
              NamespacedObjToString(a) in ByName([a, b]) && ByName([a, b])[NamespacedObjToString(a)] == a
  {
    var x, y := NamespacedObjToString(a), NamespacedObjToString(b);
    assert [a, b][..1] == [a] && [a][..0] == [];
    assert ByName([a]) == map[x := a];
    assert ByName([a, b]) == ByName([a])[y := b];
    if x == y && a.namespace != "" && b.namespace != "" {
      SamePrefix(a.namespace + "/", b.namespace + "/", a.name);
      assert (a.namespace + "/")[..|a.namespace|] == (b.namespace + "/")[..|b.namespace|];
    }
  }

  lemma SamePrefix(p: string, q: string, s: string)
    requires p + s == q + s
    ensures p == q
  {
    assert (p + s)[..|p|] == p && (q + s)[..|q|] == q;
  }

  lemma {:induction false} ByNameOfConcatenation(a: seq<Crd>, b: seq<Crd>)
    ensures ByName(a + b) == ByName(a) + ByName(b)
  {
    if b == [] {
      assert a + b == a;
    } else {
      assert (a + b)[..|a + b| - 1] == a + b[..|b| - 1];
      ByNameOfConcatenation(a, b[..|b| - 1]);
    }
  }

  /** The user's directory, when it is not one of the packaged ones, overrides every packaged CRD of the same name. */
  lemma UserDirectoryOverrides(fs: FileSystem, unmarshal: string -> Option<Crd>, strict: bool,
                               defaults: seq<string>, user: string)
    requires user !in defaults
    ensures var packaged := CrdsIn(fs, unmarshal, strict, defaults);
            var own := Contribution(fs, unmarshal, strict, user);
            CrdsIn(fs, unmarshal, strict, defaults + [user]) ==
              if packaged.None? || own.None? then None else Some(packaged.value + ByName(own.value))
  {
    assert (defaults + [user])[..|defaults|] == defaults;
    var d := FirstOccurrences(defaults);
    assert (d + [user])[..|d|] == d;
    var packaged := Contributions(fs, unmarshal, strict, d);
    var own := Contribution(fs, unmarshal, strict, user);
    if packaged.Some? && own.Some? {
      ByNameOfConcatenation(packaged.value, own.value);
    }
  }

  /** A user directory that is also a packaged one keeps its earlier rank: naming it again has no effect. */
  lemma RepeatedDirectoryKeepsItsRank(fs: FileSystem, unmarshal: string -> Option<Crd>, strict: bool,
                                      defaults: seq<string>, user: string)
    requires user in defaults
    ensures CrdsIn(fs, unmarshal, strict, defaults + [user]) == CrdsIn(fs, unmarshal, strict, defaults)
  {
    assert (defaults + [user])[..|defaults|] == defaults;
  }
}

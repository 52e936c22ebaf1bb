/** Manifest directories and what they hold (loadFilesIn in pkg/loader/loader.go, with the file and URL loops of
    pkg/loader/manifests.go). */
module ManifestSources {
  import opened Wrappers
  import opened ApiServer
  import opened Lists
  import opened Crds
  import opened CrdCreation
  import opened CreateOrUpdate
  import opened ManifestFiles

  type Manifest = Unstructured<Asset>

  /** Everything outside the program but the API server: the disk, the web and the decoders.  `glob` is what the search
      finds in directories given by a pattern, or None if the pattern is malformed. */
  datatype Environment = Environment(
    disk: FileSystem,
    glob: string -> Option<seq<File>>,
    web: string -> Option<string>,
    unmarshalCRD: string -> Option<Crd>,
    stages: Stages<Manifest>)

  // Manifest directories.

  /** The contents of the files with the given ending; one unreadable file fails the whole. */
  function FilesIn(files: seq<File>, suffix: string): Option<seq<string>> {
    if files == [] then Some([])
    else
      var n := |files| - 1;
      var before := FilesIn(files[..n], suffix);
      if before.None? || !EndsWith(files[n].name, suffix) then before
      else if files[n].contents.None? then None
      else Some(before.value + [files[n].contents.value])
  }

  /** The characters that filepath.Glob takes for more than themselves. */
  predicate IsPattern(path: string) {
    exists i :: 0 <= i < |path| && path[i] in "*?[\\"
  }

  /** What filepath.Glob finds: nothing in a directory that cannot be listed; and a name with special characters is
      a pattern, whatever directory is called so. */
  function FilesOf(env: Environment, path: string): Option<seq<File>> {
    if IsPattern(path) then env.glob(path)
    else if env.disk(path).Listing? then Some(env.disk(path).files)
    else Some([])
  }

  function LoadedFiles(env: Environment, path: string, suffix: string): Option<seq<string>> {
    match FilesOf(env, path)
    case None => None
    case Some(files) => FilesIn(files, suffix)
  }

  method LoadFilesIn(env: Environment, path: string, suffix: string) returns (r: Option<seq<string>>)
    ensures r == LoadedFiles(env, path, suffix)
  {
    var res: seq<string> := [];
    var found := FilesOf(env, path);
    if found.None? {
      return None;
    }
    var files := found.value;
    for i := 0 to |files|
      invariant FilesIn(files[..i], suffix) == Some(res)
    {
      assert files[..i + 1][..i] == files[..i];
      UnreadablePrefix(files, suffix, i + 1);
      if EndsWith(files[i].name, suffix) {
        if files[i].contents.None? {
          return None;
        }
        res := res + [files[i].contents.value];
      }
    }
    assert files[..|files|] == files;
    return Some(res);
  }

  lemma {:induction false} UnreadablePrefix(files: seq<File>, suffix: string, n: nat)
    requires n <= |files|
    ensures FilesIn(files[..n], suffix).None? ==> FilesIn(files, suffix).None?
  {
    if n == |files| {
      assert files[..n] == files;
    } else {
      assert files[..|files| - 1][..n] == files[..n];
      UnreadablePrefix(files[..|files| - 1], suffix, n);
    }
  }

  /** The objects of a list of manifest files, in order. */
  function ObjectsInFiles(env: Environment, files: seq<string>): seq<Manifest> {
    if files == [] then []
    else ObjectsInFiles(env, files[..|files| - 1]) + ObjectsOf(env.stages, Split(files[|files| - 1]))
  }

  /** White space as strings.TrimSpace sees it. */
  predicate IsSpace(c: char) {
    || '\t' <= c <= '\r' || c == ' ' || c == '\U{85}' || c == '\U{A0}' || c == '\U{1680}'
    || '\U{2000}' <= c <= '\U{200A}' || c == '\U{2028}' || c == '\U{2029}' || c == '\U{202F}'
    || c == '\U{205F}' || c == '\U{3000}'
  }

  /** strings.TrimSpace */
  function TrimSpace(s: string): string {
    if s == "" then ""
    else if IsSpace(s[0]) then TrimSpace(s[1..])
    else if IsSpace(s[|s| - 1]) then TrimSpace(s[..|s| - 1])
    else s
  }

  /** The objects behind the address in a URL file; one that cannot be read contributes nothing. */
  function ObjectsAt(env: Environment, url: string): seq<Manifest> {
    match env.web(TrimSpace(url))
    case Some(body) => ObjectsOf(env.stages, Split(body))
    case None => []
  }

  method GetUnstructuredFromURL(env: Environment, url: string) returns (objects: seq<Manifest>)
    ensures objects == ObjectsAt(env, url)
  {
    var body := env.web(TrimSpace(url));
    if body.None? {
      return [];
    }
    objects := GetUnstructuredInYAMLFile(env.stages, body.value);
  }

  function ObjectsBehindURLs(env: Environment, urls: seq<string>): seq<Manifest> {
    if urls == [] then [] else ObjectsBehindURLs(env, urls[..|urls| - 1]) + ObjectsAt(env, urls[|urls| - 1])
  }

  /** A directory that may be missing, and is. */
  predicate PassedOver(env: Environment, strict: bool, path: string) {
    !strict && env.disk(path).Missing?
  }

  /** All files of a directory can be found and read. */
  predicate Readable(env: Environment, strict: bool, path: string) {
    PassedOver(env, strict, path) || (LoadedFiles(env, path, ".yaml").Some? && LoadedFiles(env, path, ".url").Some?)
  }

  /** The local objects of a directory and then the remote ones, up to the first group of files that is not readable. */
  function ObjectsInDirectory(env: Environment, strict: bool, path: string): seq<Manifest> {
    if PassedOver(env, strict, path) then []
    else
      match LoadedFiles(env, path, ".yaml")
      case None => []
      case Some(local) =>
        ObjectsInFiles(env, local) +
        (match LoadedFiles(env, path, ".url")
         case None => []
         case Some(remote) => ObjectsBehindURLs(env, remote))
  }

  predicate AllReadable(env: Environment, strict: bool, paths: seq<string>) {
    forall p :: p in paths ==> Readable(env, strict, p)
  }

  /** The objects of several directories in turn, up to and including the first one that is not readable. */
  function ObjectsInDirectories(env: Environment, strict: bool, paths: seq<string>): seq<Manifest> {
    if paths == [] then []
    else
      var n := |paths| - 1;
      ObjectsInDirectories(env, strict, paths[..n]) +
      if AllReadable(env, strict, paths[..n]) then ObjectsInDirectory(env, strict, paths[n]) else []
  }

  // Texts and names.

  /** Trimming takes white space off both ends and leaves none there: what remains is the text from i to j. */
  lemma {:induction false} TrimSpaceExactly(s: string) returns (i: nat, j: nat)
    ensures i <= j <= |s| && TrimSpace(s) == s[i..j]
    ensures forall k :: 0 <= k < i || j <= k < |s| ==> IsSpace(s[k])
    ensures i < j ==> !IsSpace(s[i]) && !IsSpace(s[j - 1])
  {
    if s == "" {
      i, j := 0, 0;
    } else if IsSpace(s[0]) {
      i, j := TrimSpaceExactly(s[1..]);
      assert s[1..][i..j] == s[i + 1..j + 1];
      assert forall k :: 1 <= k < |s| ==> s[k] == s[1..][k - 1];
      i, j := i + 1, j + 1;
    } else if IsSpace(s[|s| - 1]) {
      i, j := TrimSpaceExactly(s[..|s| - 1]);
      assert s[..|s| - 1][i..j] == s[i..j];
    } else {
      i, j := 0, |s|;
    }
  }

  // What the files of a directory contribute.

  /** Loading fails exactly when a file of that ending cannot be read; otherwise the texts are those of these files. */
  lemma {:induction false} FilesInExactly(files: seq<File>, suffix: string)
    ensures FilesIn(files, suffix).None? <==> exists f :: f in files && EndsWith(f.name, suffix) && f.contents.None?
    ensures FilesIn(files, suffix).Some? ==>
              forall text :: text in FilesIn(files, suffix).value
                        <==> exists f :: f in files && EndsWith(f.name, suffix) && f.contents == Some(text)
  {
    if files != [] {
      var n := |files| - 1;
      FilesInExactly(files[..n], suffix);
      InOneMore(files);
    }
  }

  /** And they come in the order of the files. */
  lemma {:induction false} FilesInOrder(a: seq<File>, b: seq<File>, suffix: string)
    ensures var x, y := FilesIn(a, suffix), FilesIn(b, suffix);
            FilesIn(a + b, suffix) == if x.None? || y.None? then None else Some(x.value + y.value)
  {
    var x := FilesIn(a, suffix);
    if b == [] {
      assert a + b == a;
      assert x.Some? ==> x.value + [] == x.value;
    } else {
      var n := |b| - 1;
      assert (a + b)[..|a + b| - 1] == a + b[..n];
      FilesInOrder(a, b[..n], suffix);
      var y := FilesIn(b[..n], suffix);
      if x.Some? && y.Some? && b[n].contents.Some? {
        Associate(x.value, y.value, [b[n].contents.value]);
      }
    }
  }

  lemma ObjectsOfTextExactly(env: Environment, text: string, o: Manifest)
    ensures o in ObjectsOf(env.stages, Split(text)) <==> TextGives(env.stages, text, o)
  {
    ObjectsOfExactly(env.stages, Split(text), o);
  }

  lemma {:induction false} ObjectsInFilesExactly(env: Environment, files: seq<string>, o: Manifest)
    ensures o in ObjectsInFiles(env, files) <==> exists text :: text in files && TextGives(env.stages, text, o)
  {
    if files != [] {
      var n := |files| - 1;
      ObjectsInFilesExactly(env, files[..n], o);
      ObjectsOfTextExactly(env, files[n], o);
      InOneMore(files);
    }
  }

  lemma {:induction false} ObjectsInFilesInOrder(env: Environment, a: seq<string>, b: seq<string>)
    ensures ObjectsInFiles(env, a + b) == ObjectsInFiles(env, a) + ObjectsInFiles(env, b)
  {
    if b == [] {
      assert a + b == a;
    } else {
      var n := |b| - 1;
      assert (a + b)[..|a + b| - 1] == a + b[..n];
      ObjectsInFilesInOrder(env, a, b[..n]);
      Associate(ObjectsInFiles(env, a), ObjectsInFiles(env, b[..n]), ObjectsOf(env.stages, Split(b[n])));
    }
  }

  /** What the file names, without the white space around it, is answered with a text that gives the object. */
  ghost predicate AddressGives(env: Environment, url: string, o: Manifest) {
    var body := env.web(TrimSpace(url));
    body.Some? && TextGives(env.stages, body.value, o)
  }

  lemma ObjectsAtExactly(env: Environment, url: string, o: Manifest)
    ensures o in ObjectsAt(env, url) <==> AddressGives(env, url, o)
  {
    var body := env.web(TrimSpace(url));
    if body.Some? {
      ObjectsOfExactly(env.stages, Split(body.value), o);
    }
  }

  lemma {:induction false} ObjectsBehindURLsExactly(env: Environment, urls: seq<string>, o: Manifest)
    ensures o in ObjectsBehindURLs(env, urls) <==> exists url :: url in urls && AddressGives(env, url, o)
  {
    if urls != [] {
      var n := |urls| - 1;
      ObjectsBehindURLsExactly(env, urls[..n], o);
      ObjectsAtExactly(env, urls[n], o);
      InOneMore(urls);
    }
  }

  lemma {:induction false} ObjectsBehindURLsInOrder(env: Environment, a: seq<string>, b: seq<string>)
    ensures ObjectsBehindURLs(env, a + b) == ObjectsBehindURLs(env, a) + ObjectsBehindURLs(env, b)
  {
    if b == [] {
      assert a + b == a;
    } else {
      var n := |b| - 1;
      assert (a + b)[..|a + b| - 1] == a + b[..n];
      ObjectsBehindURLsInOrder(env, a, b[..n]);
      Associate(ObjectsBehindURLs(env, a), ObjectsBehindURLs(env, b[..n]), ObjectsAt(env, b[n]));
    }
  }

  // What a directory contributes.

  /** No character of the name is special, so that it is taken literally. */
  predicate IsPlain(path: string) {
    '*' !in path && '?' !in path && '[' !in path && '\\' !in path
  }

  lemma PlainIsNoPattern(path: string)
    ensures IsPattern(path) <==> !IsPlain(path)
  {
    forall i | 0 <= i < |path| ensures path[i] in "*?[\\" <==> path[i] in {'*', '?', '[', '\\'} {
      SpecialCharacter(path[i]);
    }
    if IsPattern(path) {
      var i :| 0 <= i < |path| && path[i] in "*?[\\";
      assert path[i] in path;
    }
    if !IsPlain(path) {
      var i :| 0 <= i < |path| && path[i] in {'*', '?', '[', '\\'};
      assert path[i] in "*?[\\";
    }
  }

  lemma SpecialCharacter(c: char)
    ensures c in "*?[\\" <==> c in {'*', '?', '[', '\\'}
  {
    var all := "*?[\\";
    assert all[0] == '*' && all[1] == '?' && all[2] == '[' && all[3] == '\\';
  }

  /** A local manifest file or a URL file cannot be read. */
  ghost predicate HasUnreadable(files: seq<File>) {
    exists f :: f in files && (EndsWith(f.name, ".yaml") || EndsWith(f.name, ".url")) && f.contents.None?
  }

  /** A plain directory is not readable exactly when it can be listed and has such a file that cannot be read. */
  lemma ReadableExactly(env: Environment, strict: bool, path: string)
    requires IsPlain(path)
    ensures Readable(env, strict, path) <==> !(env.disk(path).Listing? && HasUnreadable(env.disk(path).files))
  {
    PlainIsNoPattern(path);
    if env.disk(path).Listing? {
      FilesInExactly(env.disk(path).files, ".yaml");
      FilesInExactly(env.disk(path).files, ".url");
    }
  }

  ghost predicate LocalGives(env: Environment, path: string, o: Manifest) {
    env.disk(path).Listing? && exists f :: f in env.disk(path).files && LocalFileGives(env, f, o)
  }

  ghost predicate LocalFileGives(env: Environment, f: File, o: Manifest) {
    EndsWith(f.name, ".yaml") && f.contents.Some? && TextGives(env.stages, f.contents.value, o)
  }

  ghost predicate RemoteGives(env: Environment, path: string, o: Manifest) {
    env.disk(path).Listing? && exists f :: f in env.disk(path).files && RemoteFileGives(env, f, o)
  }

  ghost predicate RemoteFileGives(env: Environment, f: File, o: Manifest) {
    EndsWith(f.name, ".url") && f.contents.Some? && AddressGives(env, f.contents.value, o)
  }

  /** The objects of a plain, readable directory are exactly those that its local files give, and then exactly those
      behind the addresses in its URL files. */
  lemma DirectoryExactly(env: Environment, strict: bool, path: string)
    returns (local: seq<Manifest>, remote: seq<Manifest>)
    requires IsPlain(path) && Readable(env, strict, path)
    ensures ObjectsInDirectory(env, strict, path) == local + remote
    ensures forall o :: o in local <==> LocalGives(env, path, o)
    ensures forall o :: o in remote <==> RemoteGives(env, path, o)
  {
    PlainIsNoPattern(path);
    if env.disk(path).Listing? {
      var files := env.disk(path).files;
      var texts, urls := FilesIn(files, ".yaml").value, FilesIn(files, ".url").value;
      local, remote := ObjectsInFiles(env, texts), ObjectsBehindURLs(env, urls);
      forall o ensures o in local <==> LocalGives(env, path, o) {
        LocalExactly(env, files, texts, o);
      }
      forall o ensures o in remote <==> RemoteGives(env, path, o) {
        RemoteExactly(env, files, urls, o);
      }
    } else {
      local, remote := [], [];
    }
  }

  lemma LocalExactly(env: Environment, files: seq<File>, texts: seq<string>, o: Manifest)
    requires FilesIn(files, ".yaml") == Some(texts)
    ensures o in ObjectsInFiles(env, texts) <==> exists f :: f in files && LocalFileGives(env, f, o)
  {
    FilesInExactly(files, ".yaml");
    ObjectsInFilesExactly(env, texts, o);
  }

  lemma RemoteExactly(env: Environment, files: seq<File>, urls: seq<string>, o: Manifest)
    requires FilesIn(files, ".url") == Some(urls)
    ensures o in ObjectsBehindURLs(env, urls) <==> exists f :: f in files && RemoteFileGives(env, f, o)
  {
    FilesInExactly(files, ".url");
    ObjectsBehindURLsExactly(env, urls, o);
  }

  // What several directories contribute.

  lemma NextDirectory(env: Environment, strict: bool, paths: seq<string>, i: nat)
    requires i < |paths| && AllReadable(env, strict, paths[..i])
    ensures ObjectsInDirectories(env, strict, paths[..i + 1]) ==
              ObjectsInDirectories(env, strict, paths[..i]) + ObjectsInDirectory(env, strict, paths[i])
    ensures PassedOver(env, strict, paths[i]) ==>
              ObjectsInDirectories(env, strict, paths[..i + 1]) == ObjectsInDirectories(env, strict, paths[..i])
    ensures AllReadable(env, strict, paths[..i + 1]) <==> Readable(env, strict, paths[i])
    ensures !PassedOver(env, strict, paths[i]) ==>
              && ObjectsInDirectory(env, true, paths[i]) == ObjectsInDirectory(env, strict, paths[i])
              && (Readable(env, true, paths[i]) <==> Readable(env, strict, paths[i]))
  {
    assert paths[..i + 1][..i] == paths[..i] && paths[..i + 1][i] == paths[i];
    assert forall p :: p in paths[..i + 1] <==> p in paths[..i] || p == paths[i];
  }

  lemma AfterSkipped(env: Environment, strict: bool, paths: seq<string>, i: nat)
    requires i < |paths| && AllReadable(env, strict, paths[..i]) && PassedOver(env, strict, paths[i])
    ensures ObjectsInDirectories(env, strict, paths[..i + 1]) == ObjectsInDirectories(env, strict, paths[..i])
    ensures AllReadable(env, strict, paths[..i + 1])
  {
    NextDirectory(env, strict, paths, i);
  }

  /** After a directory that is not readable nothing more is attempted. */
  lemma {:induction false} ObjectsUpToUnreadable(env: Environment, strict: bool, paths: seq<string>, i: nat)
    requires i < |paths| && !Readable(env, strict, paths[i])
    ensures !AllReadable(env, strict, paths)
    ensures ObjectsInDirectories(env, strict, paths) == ObjectsInDirectories(env, strict, paths[..i + 1])
  {
    assert paths[i] in paths;
    var n := |paths| - 1;
    if i == n {
      assert paths[..i + 1] == paths;
    } else {
      assert paths[..n][i] == paths[i] && paths[..n][..i + 1] == paths[..i + 1];
      ObjectsUpToUnreadable(env, strict, paths[..n], i);
      assert ObjectsInDirectories(env, strict, paths) == ObjectsInDirectories(env, strict, paths[..n]) + [];
    }
  }

  /** Directory by directory. */
  lemma {:induction false} DirectoriesInOrder(env: Environment, strict: bool, a: seq<string>, b: seq<string>)
    requires AllReadable(env, strict, a)
    ensures ObjectsInDirectories(env, strict, a + b) ==
              ObjectsInDirectories(env, strict, a) + ObjectsInDirectories(env, strict, b)
  {
    if b == [] {
      assert a + b == a;
    } else {
      var n := |b| - 1;
      assert (a + b)[..|a + b| - 1] == a + b[..n];
      DirectoriesInOrder(env, strict, a, b[..n]);
      assert AllReadable(env, strict, a + b[..n]) <==> AllReadable(env, strict, b[..n]);
      var last := if AllReadable(env, strict, b[..n]) then ObjectsInDirectory(env, strict, b[n]) else [];
      Associate(ObjectsInDirectories(env, strict, a), ObjectsInDirectories(env, strict, b[..n]), last);
    }
  }

  lemma {:induction false} DirectoriesHold(env: Environment, strict: bool, paths: seq<string>, o: Manifest)
    requires AllReadable(env, strict, paths)
    ensures o in ObjectsInDirectories(env, strict, paths)
       <==> exists p :: p in paths && o in ObjectsInDirectory(env, strict, p)
  {
    if paths != [] {
      var n := |paths| - 1;
      InOneMore(paths);
      DirectoriesHold(env, strict, paths[..n], o);
    }
  }

  /** The objects of plain, readable directories are exactly those that a local file or an address in one of them
      gives. */
  lemma DirectoriesExactly(env: Environment, strict: bool, paths: seq<string>, o: Manifest)
    requires AllReadable(env, strict, paths) && forall p :: p in paths ==> IsPlain(p)
    ensures o in ObjectsInDirectories(env, strict, paths)
       <==> exists p :: p in paths && (LocalGives(env, p, o) || RemoteGives(env, p, o))
  {
    DirectoriesHold(env, strict, paths, o);
    forall p | p in paths
      ensures o in ObjectsInDirectory(env, strict, p) <==> LocalGives(env, p, o) || RemoteGives(env, p, o)
    {
      var local, remote := DirectoryExactly(env, strict, p);
    }
  }
}

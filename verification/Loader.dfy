/** Installing all the assets: RBAC, CRDs and manifests, in this order (pkg/loader/loader.go, with InstallCRDs
    of crd.go and InstallManifests of manifests.go). */
module Loader {
  import opened Wrappers
  import opened ApiServer
  import opened Lists
  import opened Crds
  import opened CrdCreation
  import opened CrdDiscovery
  import opened CreateOrUpdate
  import opened ManifestFiles
  import opened ManifestSources

  const DEFAULT_KUBIC_CRD_DIR := "/etc/kubic/crds"
  const DEFAULT_KUBIC_MANIFESTS_DIR := "/etc/kubic/manifests"

  const DEFAULT_CRDS_DIRS := [
    "/usr/lib/kubic/config/crds",
    "/usr/lib/kubic/crds",
    "/usr/local/kubic/config/crds",
    "/usr/local/kubic/crds",
    "config/crds"
  ]

  const DEFAULT_MANIFESTS_DIRS := [
    "/usr/lib/kubic/config/manifests",
    "/usr/lib/kubic/manifests",
    "/usr/local/etc/kubic/config/manifests",
    "/usr/local/etc/kubic/manifests",
    "config/manifests"
  ]

  // What installing leaves in the server's log.

  predicate Writes(e: Event<Asset>, m: Manifest) {
    e == Created(Dynamic, m.key, m.body) || e == Updated(Dynamic, m.key, m.body)
  }

  /** The log is what remains of one attempt per object, in order: each attempt wrote its object once or not at all. */
  predicate Attempted(objects: seq<Manifest>, log: seq<Event<Asset>>) {
    if objects == [] then log == []
    else
      var n := |objects| - 1;
      || Attempted(objects[..n], log)
      || (log != [] && Writes(log[|log| - 1], objects[n]) && Attempted(objects[..n], log[..|log| - 1]))
  }

  predicate NoVersions(objects: seq<Manifest>) {
    forall o :: o in objects ==> o.version.None?
  }

  /** What installing some objects has done at the server: its writes, the creations it asked for, the attempts it
      made, and the faults it met. */
  datatype Effort = Effort(log: seq<Event<Asset>>, posts: seq<Event<Asset>>, attempts: nat, faults: nat) {
    function Then(next: Effort): Effort {
      Effort(log + next.log, posts + next.posts, attempts + next.attempts, faults + next.faults)
    }
  }

  const NO_EFFORT := Effort([], [], 0, 0)

  /** Every object had its attempt.  Each attempt asked for the creation of its object, unless a fault came before
      that; and each wrote its object, unless there was a fault, another writer, or a version given in the file. */
  predicate AllAttempted(objects: seq<Manifest>, done: Effort, quiet: bool) {
    && Attempted(objects, done.log)
    && Attempted(objects, done.posts)
    && done.attempts == |objects|
    && |objects| <= |done.posts| + done.faults
    && (quiet && NoVersions(objects) ==> |objects| <= |done.log| + done.faults)
  }

  lemma AllAttemptedInTurn(a: seq<Manifest>, da: Effort, b: seq<Manifest>, db: Effort, quiet: bool)
    requires AllAttempted(a, da, quiet) && AllAttempted(b, db, quiet)
    ensures AllAttempted(a + b, da.Then(db), quiet)
  {
    AttemptedInTurn(a, da.log, b, db.log);
    AttemptedInTurn(a, da.posts, b, db.posts);
    if NoVersions(a + b) {
      assert forall o :: o in a ==> o in a + b;
      assert forall o :: o in b ==> o in a + b;
    }
  }

  /** What an effort adds to. */
  datatype Books = Books(log: seq<Event<Asset>>, posts: seq<Event<Asset>>, attempts: nat, faults: nat, assets: Assets)

  ghost function BooksOf(cli: Server<Asset>): Books
    reads cli
  {
    Books(cli.log, cli.posts, cli.clients, cli.faults, Bodies(cli.objects))
  }

  /** The server has seen just this effort; without other writers its writes account for the store. */
  predicate Spent(before: Books, done: Effort, after: Books, quiet: bool) {
    && after.log == before.log + done.log
    && after.posts == before.posts + done.posts
    && after.attempts == before.attempts + done.attempts
    && after.faults == before.faults + done.faults
    && (quiet ==> after.assets == Replay(before.assets, done.log))
  }

  lemma SpentInTurn(before: Books, a: Effort, between: Books, b: Effort, after: Books, quiet: bool)
    requires Spent(before, a, between, quiet) && Spent(between, b, after, quiet)
    ensures Spent(before, a.Then(b), after, quiet)
  {
    Associate(before.log, a.log, b.log);
    Associate(before.posts, a.posts, b.posts);
    ReplayOfConcatenation(before.assets, a.log, b.log);
  }

  lemma {:induction false} AttemptedInTurn(a: seq<Manifest>, la: seq<Event<Asset>>, b: seq<Manifest>,
                                           lb: seq<Event<Asset>>)
    requires Attempted(a, la) && Attempted(b, lb)
    ensures Attempted(a + b, la + lb)
    decreases b
  {
    if b == [] {
      assert a + b == a && la + lb == la;
    } else {
      var n := |b| - 1;
      assert (a + b)[..|a + b| - 1] == a + b[..n];
      if Attempted(b[..n], lb) {
        AttemptedInTurn(a, la, b[..n], lb);
      } else {
        AttemptedInTurn(a, la, b[..n], lb[..|lb| - 1]);
        assert (la + lb)[..|la + lb| - 1] == la + lb[..|lb| - 1];
      }
    }
  }

  /** What the writes of a log make of the store. */
  function Replay(assets: Assets, log: seq<Event<Asset>>): Assets {
    if log == [] then assets
    else
      var before, e := Replay(assets, log[..|log| - 1]), log[|log| - 1];
      if e.IsWrite() then before[e.key := e.body] else before
  }

  lemma {:induction false} ReplayOfConcatenation(assets: Assets, a: seq<Event<Asset>>, b: seq<Event<Asset>>)
    ensures Replay(assets, a + b) == Replay(Replay(assets, a), b)
  {
    if b == [] {
      assert a + b == a;
    } else {
      assert (a + b)[..|a + b| - 1] == a + b[..|b| - 1];
      ReplayOfConcatenation(assets, a, b[..|b| - 1]);
    }
  }

  /** The store with each object put in whole, one after the other. */
  function ManifestsApplied(assets: Assets, objects: seq<Manifest>): Assets {
    if objects == [] then assets
    else
      var last := objects[|objects| - 1];
      ManifestsApplied(assets, objects[..|objects| - 1])[last.key := last.body]
  }

  ghost predicate IsLastFor(objects: seq<Manifest>, k: Key, i: nat) {
    i < |objects| && objects[i].key == k && forall j :: i < j < |objects| ==> objects[j].key != k
  }

  /** So each object has the contents of the last manifest for it, and the others are as they were. */
  lemma {:induction false} LastManifestWins(assets: Assets, objects: seq<Manifest>, k: Key, i: nat)
    requires IsLastFor(objects, k, i)
    ensures Lookup(ManifestsApplied(assets, objects), k) == Some(objects[i].body)
  {
    var n := |objects| - 1;
    if i < n {
      assert objects[n].key != k;
      assert IsLastFor(objects[..n], k, i);
      LastManifestWins(assets, objects[..n], k, i);
    }
  }

  lemma {:induction false} OthersAreKept(assets: Assets, objects: seq<Manifest>, k: Key)
    requires forall i :: 0 <= i < |objects| ==> objects[i].key != k
    ensures Lookup(ManifestsApplied(assets, objects), k) == Lookup(assets, k)
  {
    if objects != [] {
      OthersAreKept(assets, objects[..|objects| - 1], k);
    }
  }

  /** When no attempt was in vain, the writes of a log are all the objects, applied in order. */
  lemma {:induction false} ReplayOfAllWritten(assets: Assets, objects: seq<Manifest>, log: seq<Event<Asset>>)
    requires Attempted(objects, log)
    ensures |log| <= |objects|
    ensures |log| == |objects| ==> Replay(assets, log) == ManifestsApplied(assets, objects)
  {
    if objects != [] {
      var n := |objects| - 1;
      if Attempted(objects[..n], log) {
        ReplayOfAllWritten(assets, objects[..n], log);
      } else {
        ReplayOfAllWritten(assets, objects[..n], log[..|log| - 1]);
      }
    }
  }

  lemma {:induction false} AttemptsAreDynamicWrites(objects: seq<Manifest>, log: seq<Event<Asset>>)
    requires Attempted(objects, log)
    ensures forall i :: 0 <= i < |log| ==> DynamicWrite(log[i])
  {
    if objects != [] {
      var n := |objects| - 1;
      if Attempted(objects[..n], log) {
        AttemptsAreDynamicWrites(objects[..n], log);
      } else {
        AttemptsAreDynamicWrites(objects[..n], log[..|log| - 1]);
      }
    }
  }

  predicate DynamicWrite(e: Event<Asset>) {
    e.IsWrite() && e.client == Dynamic
  }

  // Installing manifests.

  /** What one attempt has done. */
  predicate OneAttempt(m: Manifest, one: Effort, quiet: bool) {
    && (one.log == [] || (|one.log| == 1 && Writes(one.log[0], m)))
    && (one.posts == [] || one.posts == [Created(Dynamic, m.key, m.body)])
    && one.attempts == 1
    && (one.posts == [] ==> one.faults > 0)
    && (quiet && m.version.None? && one.faults == 0 ==> one.log != [])
  }

  lemma OneAttemptIsAll(m: Manifest, one: Effort, quiet: bool)
    requires OneAttempt(m, one, quiet)
    ensures AllAttempted([m], one, quiet)
  {
    assert [m][..0] == [];
    assert one.log != [] ==> one.log[..0] == [];
    assert one.posts != [] ==> one.posts[..0] == [];
    assert m in [m];
  }

  method InstallObject(cli: Server<Asset>, m: Manifest) returns (ghost one: Effort)
    requires cli.Valid()
    modifies cli
    ensures cli.Valid() && Spent(old(BooksOf(cli)), one, BooksOf(cli), cli.quiet)
    ensures OneAttempt(m, one, cli.quiet)
  {
    var _ := CreateOrUpdateFromUnstructured(cli, m);
    one := Effort(cli.log[|old(cli.log)|..], cli.posts[|old(cli.posts)|..], 1, cli.faults - old(cli.faults));
    if one.log != [] {
      assert Replay(Bodies(old(cli.objects)), one.log[..0]) == Bodies(old(cli.objects));
    }
  }

  /** Errors are logged and ignored: every object gets its attempt. */
  method InstallObjects(cli: Server<Asset>, objects: seq<Manifest>) returns (ghost done: Effort)
    requires cli.Valid()
    modifies cli
    ensures cli.Valid() && Spent(old(BooksOf(cli)), done, BooksOf(cli), cli.quiet)
    ensures AllAttempted(objects, done, cli.quiet)
  {
    done := NO_EFFORT;
    for i := 0 to |objects|
      invariant cli.Valid() && Spent(old(BooksOf(cli)), done, BooksOf(cli), cli.quiet)
      invariant AllAttempted(objects[..i], done, cli.quiet)
    {
      assert objects[..i + 1] == objects[..i] + [objects[i]];
      ghost var between := BooksOf(cli);
      ghost var one := InstallObject(cli, objects[i]);
      OneAttemptIsAll(objects[i], one, cli.quiet);
      AllAttemptedInTurn(objects[..i], done, [objects[i]], one, cli.quiet);
      SpentInTurn(old(BooksOf(cli)), done, between, one, BooksOf(cli), cli.quiet);
      done := done.Then(one);
    }
    assert objects[..|objects|] == objects;
  }

  method InstallFiles(cli: Server<Asset>, env: Environment, files: seq<string>) returns (ghost done: Effort)
    requires cli.Valid()
    modifies cli
    ensures cli.Valid() && Spent(old(BooksOf(cli)), done, BooksOf(cli), cli.quiet)
    ensures AllAttempted(ObjectsInFiles(env, files), done, cli.quiet)
  {
    done := NO_EFFORT;
    for i := 0 to |files|
      invariant cli.Valid() && Spent(old(BooksOf(cli)), done, BooksOf(cli), cli.quiet)
      invariant AllAttempted(ObjectsInFiles(env, files[..i]), done, cli.quiet)
    {
      assert files[..i + 1][..i] == files[..i];
      ghost var between := BooksOf(cli);
      var objects := GetUnstructuredInYAMLFile(env.stages, files[i]);
      ghost var more := InstallObjects(cli, objects);
      AllAttemptedInTurn(ObjectsInFiles(env, files[..i]), done, objects, more, cli.quiet);
      SpentInTurn(old(BooksOf(cli)), done, between, more, BooksOf(cli), cli.quiet);
      done := done.Then(more);
    }
    assert files[..|files|] == files;
  }

  method InstallURLs(cli: Server<Asset>, env: Environment, urls: seq<string>) returns (ghost done: Effort)
    requires cli.Valid()
    modifies cli
    ensures cli.Valid() && Spent(old(BooksOf(cli)), done, BooksOf(cli), cli.quiet)
    ensures AllAttempted(ObjectsBehindURLs(env, urls), done, cli.quiet)
  {
    done := NO_EFFORT;
    for i := 0 to |urls|
      invariant cli.Valid() && Spent(old(BooksOf(cli)), done, BooksOf(cli), cli.quiet)
      invariant AllAttempted(ObjectsBehindURLs(env, urls[..i]), done, cli.quiet)
    {
      assert urls[..i + 1][..i] == urls[..i];
      ghost var between := BooksOf(cli);
      var objects := GetUnstructuredFromURL(env, urls[i]);
      ghost var more := InstallObjects(cli, objects);
      AllAttemptedInTurn(ObjectsBehindURLs(env, urls[..i]), done, objects, more, cli.quiet);
      SpentInTurn(old(BooksOf(cli)), done, between, more, BooksOf(cli), cli.quiet);
      done := done.Then(more);
    }
    assert urls[..|urls|] == urls;
  }

  /** One directory: the local files, then the remote ones. */
  method InstallDirectory(cli: Server<Asset>, env: Environment, path: string)
    returns (r: Result<(), ()>, ghost done: Effort)
    requires cli.Valid()
    modifies cli
    ensures cli.Valid() && Spent(old(BooksOf(cli)), done, BooksOf(cli), cli.quiet)
    ensures AllAttempted(ObjectsInDirectory(env, true, path), done, cli.quiet)
    ensures r.Success? <==> Readable(env, true, path)
  {
    done := NO_EFFORT;
    var files := LoadFilesIn(env, path, ".yaml");
    if files.None? {
      return Failure(()), done;
    }
    done := InstallFiles(cli, env, files.value);
    var urls := LoadFilesIn(env, path, ".url");
    ghost var local := ObjectsInFiles(env, files.value);
    if urls.None? {
      assert local + [] == local;
      return Failure(()), done;
    }
    ghost var between := BooksOf(cli);
    ghost var more := InstallURLs(cli, env, urls.value);
    AllAttemptedInTurn(local, done, ObjectsBehindURLs(env, urls.value), more, cli.quiet);
    SpentInTurn(old(BooksOf(cli)), done, between, more, BooksOf(cli), cli.quiet);
    return Success(()), done.Then(more);
  }

  /** All directories in turn: every object of every distinct directory has its attempt, up to the first directory that
      is not readable, and that is the only way to fail.  A missing directory is never an error: when it is not
      skipped, the search for files in it finds nothing. */
  method InstallManifests(cli: Server<Asset>, env: Environment, errorIfPathMissing: bool, paths: seq<string>)
    returns (r: Result<(), ()>, ghost done: Effort)
    requires cli.Valid()
    modifies cli
    ensures var objects := ObjectsInDirectories(env, errorIfPathMissing, FirstOccurrences(paths));
            && cli.Valid() && Spent(old(BooksOf(cli)), done, BooksOf(cli), cli.quiet)
            && AllAttempted(objects, done, cli.quiet)
            && (cli.quiet && done.faults == 0 && NoVersions(objects) ==>
                  Bodies(cli.objects) == ManifestsApplied(Bodies(old(cli.objects)), objects))
    ensures r.Success? <==> AllReadable(env, errorIfPathMissing, FirstOccurrences(paths))
  {
    var distinct := RemoveDuplicates(paths);
    r, done := InstallDirectories(cli, env, errorIfPathMissing, distinct);
    AllWrittenMeansApplied(old(BooksOf(cli)), done, BooksOf(cli),
                           ObjectsInDirectories(env, errorIfPathMissing, distinct), cli.quiet);
  }

  /** The loop of InstallManifests. */
  method InstallDirectories(cli: Server<Asset>, env: Environment, errorIfPathMissing: bool, distinct: seq<string>)
    returns (r: Result<(), ()>, ghost done: Effort)
    requires cli.Valid()
    modifies cli
    ensures cli.Valid() && Spent(old(BooksOf(cli)), done, BooksOf(cli), cli.quiet)
    ensures AllAttempted(ObjectsInDirectories(env, errorIfPathMissing, distinct), done, cli.quiet)
    ensures r.Success? <==> AllReadable(env, errorIfPathMissing, distinct)
  {
    done := NO_EFFORT;
    for i := 0 to |distinct|
      invariant cli.Valid() && Spent(old(BooksOf(cli)), done, BooksOf(cli), cli.quiet)
      invariant AllAttempted(ObjectsInDirectories(env, errorIfPathMissing, distinct[..i]), done, cli.quiet)
      invariant AllReadable(env, errorIfPathMissing, distinct[..i])
    {
      if !errorIfPathMissing && env.disk(distinct[i]).Missing? {
        AfterSkipped(env, errorIfPathMissing, distinct, i);
        continue;
      }
      ghost var between := BooksOf(cli);
      var one;
      ghost var more;
      one, more := InstallDirectory(cli, env, distinct[i]);
      AfterDirectory(env, errorIfPathMissing, distinct, i, done, more, cli.quiet);
      SpentInTurn(old(BooksOf(cli)), done, between, more, BooksOf(cli), cli.quiet);
      done := done.Then(more);
      if one.Failure? {
        return Failure(()), done;
      }
    }
    assert distinct[..|distinct|] == distinct;
    return Success(()), done;
  }

  /** After a directory that was not skipped the attempts go one further, or are over because it was not readable. */
  lemma AfterDirectory(env: Environment, strict: bool, paths: seq<string>, i: nat, done: Effort, more: Effort,
                       quiet: bool)
    requires i < |paths| && AllReadable(env, strict, paths[..i]) && !PassedOver(env, strict, paths[i])
    requires AllAttempted(ObjectsInDirectories(env, strict, paths[..i]), done, quiet)
    requires AllAttempted(ObjectsInDirectory(env, true, paths[i]), more, quiet)
    ensures if Readable(env, true, paths[i])
            then AllAttempted(ObjectsInDirectories(env, strict, paths[..i + 1]), done.Then(more), quiet)
                 && AllReadable(env, strict, paths[..i + 1])
            else AllAttempted(ObjectsInDirectories(env, strict, paths), done.Then(more), quiet)
                 && !AllReadable(env, strict, paths)
  {
    NextDirectory(env, strict, paths, i);
    AllAttemptedInTurn(ObjectsInDirectories(env, strict, paths[..i]), done,
                       ObjectsInDirectory(env, true, paths[i]), more, quiet);
    if !Readable(env, true, paths[i]) {
      ObjectsUpToUnreadable(env, strict, paths, i);
    }
  }

  lemma AllWrittenMeansApplied(before: Books, done: Effort, after: Books, objects: seq<Manifest>, quiet: bool)
    requires Spent(before, done, after, quiet) && AllAttempted(objects, done, quiet)
    ensures quiet && done.faults == 0 && NoVersions(objects) ==>
              after.assets == ManifestsApplied(before.assets, objects)
  {
    ReplayOfAllWritten(before.assets, objects, done.log);
  }

  // Installing CRDs.

  datatype CRDError = BadFiles | NotCreated | NotDiscovered

  ghost predicate CRDEvent(e: Event<Asset>, crds: CrdsSet) {
    e.Listed? || e.ListFailed? || WritesOneOf(e, crds)
  }

  /** At some point of the log every CRD had been written, and from there on each was seen in discovery. */
  ghost predicate CRDsReady(crds: CrdsSet, log: seq<Event<Asset>>) {
    exists n: nat :: n <= |log| && WrittenThenSeen(crds, log[..n], log[n..])
  }

  ghost predicate WrittenThenSeen(crds: CrdsSet, writes: seq<Event<Asset>>, fetches: seq<Event<Asset>>) {
    (forall k :: k in crds ==> Written(writes, crds[k])) && AllObserved(crds, fetches)
  }

  /** Discovery answered every question, and with everything the CRDs define. */
  ghost predicate AllAnsweredInFull(crds: CrdsSet, log: seq<Event<Asset>>) {
    forall i :: 0 <= i < |log| ==>
      !log[i].ListFailed? && (log[i].Listed? ==> ListsAll(crds, log[i].gv, log[i].names))
  }

  /** The names include the plural of every CRD with that group and version. */
  ghost predicate ListsAll(crds: CrdsSet, gv: GroupVersion, names: seq<string>) {
    forall k :: k in crds && crds[k].shape.group == gv.group && crds[k].shape.version == gv.version ==>
      crds[k].shape.plural in names
  }

  lemma ListsAllIsFull(crds: CrdsSet, gv: GroupVersion, names: seq<string>)
    ensures ListsAll(crds, gv, names) <==> At(Required(crds), gv) <= ToSet(names)
  {
    forall n
      ensures n in At(Required(crds), gv) <==> exists k :: k in crds && Defines(crds[k], gv.group, gv.version, n)
    {
      RequiredExactly(crds, gv, n);
    }
    if At(Required(crds), gv) <= ToSet(names) {
      forall k | k in crds && crds[k].shape.group == gv.group && crds[k].shape.version == gv.version
        ensures crds[k].shape.plural in names
      {
        assert Defines(crds[k], gv.group, gv.version, crds[k].shape.plural);
        assert crds[k].shape.plural in At(Required(crds), gv);
      }
    }
  }

  method InstallCRDs(cli: Server<Asset>, env: Environment, errorIfPathMissing: bool, paths: seq<string>, ticks: nat)
    returns (r: Result<(), CRDError>, ghost log: seq<Event<Asset>>)
    requires cli.Valid()
    modifies cli
    ensures cli.Valid() && cli.log == old(cli.log) + log
    ensures match CrdsIn(env.disk, env.unmarshalCRD, errorIfPathMissing, paths)
            case None => r == Failure(BadFiles) && log == []
            case Some(crds) =>
              && (forall i :: 0 <= i < |log| ==> CRDEvent(log[i], crds))
              && (r.Success? ==> CRDsReady(crds, log))
              && (r.Success? && cli.quiet ==> AppliedInSomeOrder(crds, Bodies(old(cli.objects)), Bodies(cli.objects)))
              && (r.Failure? ==> r.error != BadFiles)
              && (cli.quiet && r == Failure(NotCreated) ==> cli.faults > old(cli.faults))
              && (r == Failure(NotDiscovered) ==> cli.faults > old(cli.faults) || !AllAnsweredInFull(crds, log))
    ensures cli.faults >= old(cli.faults) && cli.clients >= old(cli.clients)
  {
    var crds := ReadCRDFiles(env.disk, env.unmarshalCRD, errorIfPathMissing, paths);
    if crds.None? {
      return Failure(BadFiles), [];
    }
    var created;
    ghost var visited, writes;
    created, visited, writes := CreateCRDs(cli, crds.value);
    if created.Failure? {
      return Failure(NotCreated), writes;
    }
    assert cli.quiet ==> AppliedInSomeOrder(crds.value, Bodies(old(cli.objects)), Bodies(cli.objects)) by {
      assert IsOrderOf(visited, crds.value);
    }
    var waited;
    ghost var fetches;
    waited, fetches := WaitForCRDs(cli, crds.value, ticks);
    log := writes + fetches;
    Associate(old(cli.log), writes, fetches);
    OnlyCRDEvents(crds.value, writes, fetches);
    if waited.Failure? {
      FullIfAllAnswered(crds.value, writes, fetches);
      assert waited.error.NoClient? || waited.error.TimedOut?;
      return Failure(NotDiscovered), log;
    }
    ReadyAfterWait(crds.value, visited, writes, fetches);
    return Success(()), log;
  }

  lemma OnlyCRDEvents(crds: CrdsSet, writes: seq<Event<Asset>>, fetches: seq<Event<Asset>>)
    requires forall i :: 0 <= i < |writes| ==> WritesOneOf(writes[i], crds)
    requires FetchesNeeded(Required(crds), fetches)
    ensures forall i :: 0 <= i < |writes + fetches| ==> CRDEvent((writes + fetches)[i], crds)
  {
  }

  lemma FullIfAllAnswered(crds: CrdsSet, writes: seq<Event<Asset>>, fetches: seq<Event<Asset>>)
    requires FetchesNeeded(Required(crds), fetches)
    ensures AllAnsweredInFull(crds, writes + fetches) ==> FullAnswers(Required(crds), fetches)
  {
    var log := writes + fetches;
    if AllAnsweredInFull(crds, log) {
      forall i | 0 <= i < |fetches|
        ensures fetches[i].Listed? && At(Required(crds), fetches[i].gv) <= ToSet(fetches[i].names)
      {
        assert log[|writes| + i] == fetches[i];
        if fetches[i].Listed? {
          ListsAllIsFull(crds, fetches[i].gv, fetches[i].names);
        }
      }
    }
  }

  lemma ReadyAfterWait(crds: CrdsSet, visited: seq<string>, writes: seq<Event<Asset>>, fetches: seq<Event<Asset>>)
    requires forall k :: k in crds ==> k in visited
    requires forall k :: k in visited ==> k in crds && Written(writes, crds[k])
    requires AllObserved(crds, fetches)
    ensures CRDsReady(crds, writes + fetches)
  {
    var log, n := writes + fetches, |writes|;
    assert log[..n] == writes && log[n..] == fetches;
    assert WrittenThenSeen(crds, log[..n], log[n..]);
  }

  // All the assets.

  /** The RBAC phase, taken as one event that succeeds or fails. */
  method InstallRBAC(cli: Server<Asset>) returns (ok: bool)
    requires cli.Valid()
    modifies cli
    ensures cli.Valid() && cli.log == old(cli.log) + if ok then [RBACInstalled] else []
    ensures if ok then cli.faults == old(cli.faults) else cli.faults == old(cli.faults) + 1
    ensures cli.quiet ==> cli.objects == old(cli.objects)
    ensures cli.clients > old(cli.clients)
  {
    cli.OthersAct();
    ok := cli.Connect();
    if ok {
      cli.log := cli.log + [RBACInstalled];
    }
  }

  datatype Phase = RBACPhase | CRDPhase | ManifestPhase

  /** The order of the phases in a log: RBAC before any write, and all CRDs written, and after that discovered,
      before any manifest is written. */
  ghost predicate PhasesInOrder(crds: Option<CrdsSet>, log: seq<Event<Asset>>) {
    forall i :: 0 <= i < |log| ==>
      && (log[i].IsWrite() ==> RBACInstalled in log[..i])
      && (DynamicWrite(log[i]) ==> crds.Some? && CRDsReady(crds.value, log[..i]))
  }

  /** The store has all the CRDs applied, in some order, and then all the manifests, in theirs. */
  ghost predicate AllInstalled(crds: CrdsSet, objects: seq<Manifest>, before: Assets, after: Assets) {
    exists between :: AppliedInSomeOrder(crds, before, between) && after == ManifestsApplied(between, objects)
  }

  function OrDefault(dir: string, default: string): string {
    if |dir| == 0 then default else dir
  }

  function CRDsToInstall(env: Environment, crdsDir: string): Option<CrdsSet> {
    CrdsIn(env.disk, env.unmarshalCRD, false, DEFAULT_CRDS_DIRS + [OrDefault(crdsDir, DEFAULT_KUBIC_CRD_DIR)])
  }

  function ManifestDirs(manifDir: string): seq<string> {
    FirstOccurrences(DEFAULT_MANIFESTS_DIRS + [OrDefault(manifDir, DEFAULT_KUBIC_MANIFESTS_DIR)])
  }

  function ManifestsToInstall(env: Environment, manifDir: string): seq<Manifest> {
    ObjectsInDirectories(env, false, ManifestDirs(manifDir))
  }

  /** `done` is what the manifest phase has done. */
  method InstallAllAssets(cli: Server<Asset>, env: Environment, manifDir: string, crdsDir: string, ticks: nat)
    returns (r: Result<(), Phase>, ghost log: seq<Event<Asset>>, ghost crdLog: seq<Event<Asset>>, ghost done: Effort)
    requires cli.Valid()
    modifies cli
    ensures cli.Valid() && cli.log == old(cli.log) + log
    ensures PhasesInOrder(CRDsToInstall(env, crdsDir), log)
    // A failing phase suppresses the later ones.
    ensures r == Failure(RBACPhase) ==> log == [] && cli.faults > old(cli.faults)
    ensures r == Failure(CRDPhase) ==> log == [RBACInstalled] + crdLog && forall e :: e in log ==> !DynamicWrite(e)
    // On a server of its own a failure has a cause: bad files, a fault, or CRDs that discovery does not show in full.
    ensures cli.quiet && r == Failure(CRDPhase) && cli.faults == old(cli.faults) ==>
      CRDsToInstall(env, crdsDir).None? || !AllAnsweredInFull(CRDsToInstall(env, crdsDir).value, crdLog)
    // Success is success of all three; the last one fails exactly when files are not readable.
    ensures r.Success? ==> AllReadable(env, false, ManifestDirs(manifDir))
    ensures r == Failure(ManifestPhase) ==> !AllReadable(env, false, ManifestDirs(manifDir))
    // When it came to the manifests, whatever happened to some of them, all have been attempted.
    ensures r.Success? || r == Failure(ManifestPhase) ==>
      && log == [RBACInstalled] + crdLog + done.log
      && CRDsToInstall(env, crdsDir).Some? && CRDsReady(CRDsToInstall(env, crdsDir).value, crdLog)
      && AllAttempted(ManifestsToInstall(env, manifDir), done, cli.quiet)
      && (exists earlier :: cli.posts == earlier + done.posts)
      && cli.clients >= old(cli.clients) + done.attempts && cli.faults >= old(cli.faults) + done.faults
    // On a server of its own, and without faults, it leaves exactly what was to be installed.
    ensures (r.Success? || r == Failure(ManifestPhase)) && cli.quiet && cli.faults == old(cli.faults)
            && NoVersions(ManifestsToInstall(env, manifDir)) ==>
      AllInstalled(CRDsToInstall(env, crdsDir).value, ManifestsToInstall(env, manifDir),
                   Bodies(old(cli.objects)), Bodies(cli.objects))
  {
    crdLog, done := [], NO_EFFORT;
    var permitted := InstallRBAC(cli);
    if !permitted {
      return Failure(RBACPhase), [], [], done;
    }
    var crdsDirs := DEFAULT_CRDS_DIRS + [OrDefault(crdsDir, DEFAULT_KUBIC_CRD_DIR)];
    var defined;
    defined, crdLog := InstallCRDs(cli, env, false, crdsDirs, ticks);
    log := [RBACInstalled] + crdLog;
    Associate(old(cli.log), [RBACInstalled], crdLog);
    if defined.Failure? {
      AfterCRDs(CRDsToInstall(env, crdsDir), crdLog);
      return Failure(CRDPhase), log, crdLog, done;
    }
    ghost var between := Bodies(cli.objects);
    var manifestDirs := DEFAULT_MANIFESTS_DIRS + [OrDefault(manifDir, DEFAULT_KUBIC_MANIFESTS_DIR)];
    var installed;
    installed, done := InstallManifests(cli, env, false, manifestDirs);
    AttemptsAreDynamicWrites(ManifestsToInstall(env, manifDir), done.log);
    AfterManifests(CRDsToInstall(env, crdsDir).value, crdLog, done.log);
    Associate(old(cli.log), [RBACInstalled] + crdLog, done.log);
    log := [RBACInstalled] + crdLog + done.log;
    r := if installed.Failure? then Failure(ManifestPhase) else Success(());
  }

  lemma AfterCRDs(crds: Option<CrdsSet>, crdLog: seq<Event<Asset>>)
    requires if crds.None? then crdLog == [] else forall i :: 0 <= i < |crdLog| ==> CRDEvent(crdLog[i], crds.value)
    ensures PhasesInOrder(crds, [RBACInstalled] + crdLog)
    ensures forall e :: e in [RBACInstalled] + crdLog ==> !DynamicWrite(e)
  {
    var log := [RBACInstalled] + crdLog;
    forall i | 0 <= i < |log|
      ensures !DynamicWrite(log[i])
      ensures log[i].IsWrite() ==> RBACInstalled in log[..i]
    {
      if i > 0 {
        assert log[i] == crdLog[i - 1] && log[..i][0] == RBACInstalled;
      }
    }
  }

  lemma AfterManifests(crds: CrdsSet, crdLog: seq<Event<Asset>>, manifestLog: seq<Event<Asset>>)
    requires forall i :: 0 <= i < |crdLog| ==> CRDEvent(crdLog[i], crds)
    requires CRDsReady(crds, crdLog)
    requires forall i :: 0 <= i < |manifestLog| ==> DynamicWrite(manifestLog[i])
    ensures PhasesInOrder(Some(crds), [RBACInstalled] + crdLog + manifestLog)
  {
    var early := [RBACInstalled] + crdLog;
    var log := early + manifestLog;
    AfterCRDs(Some(crds), crdLog);
    forall i | 0 <= i < |log|
      ensures log[i].IsWrite() ==> RBACInstalled in log[..i]
      ensures DynamicWrite(log[i]) ==> CRDsReady(crds, log[..i])
    {
      if i < |early| {
        assert log[i] == early[i] && log[..i] == early[..i];
      } else {
        assert log[..i][0] == RBACInstalled;
        assert log[..i] == [RBACInstalled] + crdLog + manifestLog[..i - |early|];
        ReadyStays(crds, [RBACInstalled], crdLog, manifestLog[..i - |early|]);
      }
    }
  }

  lemma ReadyStays(crds: CrdsSet, before: seq<Event<Asset>>, log: seq<Event<Asset>>, more: seq<Event<Asset>>)
    requires CRDsReady(crds, log)
    ensures CRDsReady(crds, before + log + more)
  {
    var n: nat :| n <= |log| && WrittenThenSeen(crds, log[..n], log[n..]);
    var all, m := before + log + more, |before| + n;
    assert all[..m] == before + log[..n] && all[m..] == log[n..] + more;
    forall k | k in crds ensures Written(all[..m], crds[k]) {
      WrittenStays(before, log[..n], crds[k]);
    }
    ObservedStays(crds, log[n..], more);
    assert WrittenThenSeen(crds, all[..m], all[m..]);
  }

  /** The directories are the stock ones and the given one, or the default where none is given. */
  predicate IsManifestDir(manifDir: string, path: string) {
    path in DEFAULT_MANIFESTS_DIRS || path == if manifDir == "" then "/etc/kubic/manifests" else manifDir
  }

  predicate IsCRDDir(crdsDir: string, path: string) {
    path in DEFAULT_CRDS_DIRS || path == if crdsDir == "" then "/etc/kubic/crds" else crdsDir
  }

  lemma PlainByLetters(path: string)
    requires forall i :: 0 <= i < |path| ==> 'a' <= path[i] <= 'z' || path[i] == '/'
    ensures IsPlain(path)
  {
  }

  lemma StockDirsArePlain()
    ensures forall p :: p in DEFAULT_MANIFESTS_DIRS ==> IsPlain(p)
    ensures IsPlain("/etc/kubic/manifests")
  {
    StockDirIsPlain0();
    StockDirIsPlain1();
    StockDirIsPlain2();
    StockDirIsPlain3();
    StockDirIsPlain4();
    assert forall p :: p in DEFAULT_MANIFESTS_DIRS ==>
      exists i :: 0 <= i < |DEFAULT_MANIFESTS_DIRS| && p == DEFAULT_MANIFESTS_DIRS[i];
  }

  lemma StockDirIsPlain0()
    ensures IsPlain("/usr/lib/kubic/config/manifests")
  {
    PlainByLetters("/usr/lib/kubic/config/manifests");
  }

  lemma StockDirIsPlain1()
    ensures IsPlain("/usr/lib/kubic/manifests")
  {
    PlainByLetters("/usr/lib/kubic/manifests");
  }

  lemma StockDirIsPlain2()
    ensures IsPlain("/usr/local/etc/kubic/config/manifests")
  {
    PlainByLetters("/usr/local/etc/kubic/config/manifests");
  }

  lemma StockDirIsPlain3()
    ensures IsPlain("/usr/local/etc/kubic/manifests")
  {
    PlainByLetters("/usr/local/etc/kubic/manifests");
  }

  lemma StockDirIsPlain4()
    ensures IsPlain("config/manifests")
  {
    PlainByLetters("config/manifests");
  }

  /** The manifests to install are exactly the objects that a local file or an address in one of the directories
      gives. */
  lemma ManifestsExactly(env: Environment, manifDir: string, o: Manifest)
    requires AllReadable(env, false, ManifestDirs(manifDir)) && IsPlain(manifDir)
    ensures o in ManifestsToInstall(env, manifDir)
       <==> exists p :: IsManifestDir(manifDir, p) && (LocalGives(env, p, o) || RemoteGives(env, p, o))
  {
    StockDirsArePlain();
    assert forall p :: p in ManifestDirs(manifDir) <==> IsManifestDir(manifDir, p);
    DirectoriesExactly(env, false, ManifestDirs(manifDir), o);
  }

  /** The CRDs to install come from the files in the directories, and all of those have an entry; and there is nothing
      to install exactly when one of the directories fails. */
  lemma CRDsExactly(env: Environment, crdsDir: string)
    ensures var table := CRDsToInstall(env, crdsDir);
            && (table.None? <==>
                  exists p :: IsCRDDir(crdsDir, p) && PathFails(env.disk, env.unmarshalCRD, false, p))
            && (table.Some? ==>
                  && (forall k :: k in table.value ==>
                        exists p :: IsCRDDir(crdsDir, p) && PathGives(env.disk, env.unmarshalCRD, p, table.value[k]))
                  && (forall p, crd :: IsCRDDir(crdsDir, p) && PathGives(env.disk, env.unmarshalCRD, p, crd) ==>
                        NamespacedObjToString(crd) in table.value))
  {
    var paths := DEFAULT_CRDS_DIRS + [OrDefault(crdsDir, DEFAULT_KUBIC_CRD_DIR)];
    assert forall p :: p in paths <==> IsCRDDir(crdsDir, p);
    TableComesFromFiles(env.disk, env.unmarshalCRD, false, paths);
  }

  /** With the stock directories, the user's CRD directory wins over all packaged ones, unless it is one of them. */
  lemma UserCRDsWin(env: Environment, crdsDir: string)
    requires (if crdsDir == "" then "/etc/kubic/crds" else crdsDir) !in DEFAULT_CRDS_DIRS
    requires CRDsToInstall(env, crdsDir).Some?
    ensures var user := if crdsDir == "" then "/etc/kubic/crds" else crdsDir;
            var own := Contribution(env.disk, env.unmarshalCRD, false, user);
            && own.Some?
            && forall k :: k in ByName(own.value) ==>
                 k in CRDsToInstall(env, crdsDir).value && CRDsToInstall(env, crdsDir).value[k] == ByName(own.value)[k]
  {
    var user := if crdsDir == "" then "/etc/kubic/crds" else crdsDir;
    UserDirectoryOverrides(env.disk, env.unmarshalCRD, false, DEFAULT_CRDS_DIRS, user);
  }

  /** So do the user's manifests: an object for which there is one ends up with the contents of the last of them. */
  lemma UserManifestsWin(env: Environment, manifDir: string, assets: Assets, user: string, k: Key, i: nat)
    requires user == (if manifDir == "" then "/etc/kubic/manifests" else manifDir) && user !in DEFAULT_MANIFESTS_DIRS
    requires AllReadable(env, false, ManifestDirs(manifDir))
    requires IsLastFor(ObjectsInDirectory(env, false, user), k, i)
    ensures Lookup(ManifestsApplied(assets, ManifestsToInstall(env, manifDir)), k) ==
              Some(ObjectsInDirectory(env, false, user)[i].body)
  {
    var earlier := UserObjectsAreLast(env, manifDir, user);
    var own := ObjectsInDirectory(env, false, user);
    LastOfSecond(earlier, own, k, i);
    LastManifestWins(assets, earlier + own, k, |earlier| + i);
  }

  lemma LastOfSecond(a: seq<Manifest>, b: seq<Manifest>, k: Key, i: nat)
    requires IsLastFor(b, k, i)
    ensures IsLastFor(a + b, k, |a| + i)
  {
    assert forall j :: |a| + i < j < |a + b| ==> (a + b)[j] == b[j - |a|];
  }

  lemma UserObjectsAreLast(env: Environment, manifDir: string, user: string) returns (earlier: seq<Manifest>)
    requires user == OrDefault(manifDir, DEFAULT_KUBIC_MANIFESTS_DIR) && user !in DEFAULT_MANIFESTS_DIRS
    requires AllReadable(env, false, ManifestDirs(manifDir))
    ensures ManifestsToInstall(env, manifDir) == earlier + ObjectsInDirectory(env, false, user)
  {
    var packaged := FirstOccurrences(DEFAULT_MANIFESTS_DIRS);
    LastIsNew(DEFAULT_MANIFESTS_DIRS, user);
    assert ManifestDirs(manifDir) == packaged + [user];
    earlier := ObjectsInDirectories(env, false, packaged);
    OneMoreDirectory(env, false, packaged, user);
  }

  lemma LastIsNew(paths: seq<string>, last: string)
    requires last !in paths
    ensures FirstOccurrences(paths + [last]) == FirstOccurrences(paths) + [last]
  {
    assert (paths + [last])[..|paths|] == paths;
  }

  lemma OneMoreDirectory(env: Environment, strict: bool, paths: seq<string>, last: string)
    requires AllReadable(env, strict, paths + [last])
    ensures ObjectsInDirectories(env, strict, paths + [last]) ==
              ObjectsInDirectories(env, strict, paths) + ObjectsInDirectory(env, strict, last)
  {
    assert (paths + [last])[..|paths|] == paths;
    assert forall p :: p in paths ==> p in paths + [last];
  }
}

/** Shared passwords kept in Secrets (pkg/crypto/password.go). */
module Passwords {
  import opened Wrappers
  import opened Names
  import opened Lists
  import Api = ApiServer

  const SHARED_PASSWORD_NAMESPACE := "kube-system"
  const SHARED_PASSWORD_DEFAULT_LEN := 16
  const RUNES := 62

  /** The r-th of the lower-case letters, the upper-case letters and the digits, in this order. */
  function RuneAt(r: nat): char
    requires r < RUNES
  {
    if r < 26 then 'a' + r as char
    else if r < 52 then 'A' + (r - 26) as char
    else '0' + (r - 52) as char
  }

  datatype SecretBody = SecretBody(secretType: string, data: map<string, string>)

  type Bodies = map<Api.Key, SecretBody>

  /** A SharedPassword as a value; the name includes the namespace. */
  datatype Password = Password(name: string, contents: string) {
    function GetName(): string { StringToNamespacedName(name).name }

    function GetNamespace(): string { StringToNamespacedName(name).namespace }

    function Key(): Api.Key { Api.Key(Api.Secret, GetNamespace(), GetName()) }

    function AsSecret(): SecretBody { SecretBody("Opaque", map[GetName() := contents]) }
  }

  type PasswordsSet = map<string, Password>

  /** found.Data[name], which is empty when there is no such entry. */
  function DataOf(secret: SecretBody, name: string): string {
    if name in secret.data then secret.data[name] else ""
  }

  predicate IsRandom(s: string, length: nat) {
    |s| == length && forall i :: 0 <= i < |s| ==> IsAlphanumeric(s[i])
  }

  predicate IsAlphanumeric(c: char) {
    'a' <= c <= 'z' || 'A' <= c <= 'Z' || '0' <= c <= '9'
  }

  function OrDefault(namespace: string): string {
    if |namespace| == 0 then SHARED_PASSWORD_NAMESPACE else namespace
  }

  /** The alphabet consists of exactly the letters and digits. */
  lemma RunesAreAlphanumeric(c: char)
    ensures (exists r: nat :: r < RUNES && RuneAt(r) == c) <==> IsAlphanumeric(c)
  {
    if 'a' <= c <= 'z' {
      assert RuneAt((c - 'a') as int) == c;
    } else if 'A' <= c <= 'Z' {
      assert RuneAt((c - 'A') as int + 26) == c;
    } else if '0' <= c <= '9' {
      assert RuneAt((c - '0') as int + 52) == c;
    }
  }

  method RandStringRunes(n: nat) returns (s: string)
    ensures IsRandom(s, n)
  {
    var b := new char[n];
    for i := 0 to n
      invariant forall j :: 0 <= j < i ==> IsAlphanumeric(b[j])
    {
      var r: nat :| r < RUNES;
      b[i] := RuneAt(r);
    }
    s := b[..];
  }

  class SharedPassword {
    var name: string
    var contents: string

    constructor (name: string, namespace: string)
      ensures var ns := if namespace == "" then "kube-system" else namespace;
              Value() == Password(NamespacedNameToString(NamespacedName(ns, name)), "")
    {
      this.name := NamespacedNameToString(NamespacedName(OrDefault(namespace), name));
      this.contents := "";
    }

    function Value(): Password
      reads this
    {
      Password(name, contents)
    }

    method Rand(length: nat) returns (s: string)
      modifies `contents
      ensures s == contents
      ensures IsRandom(s, if length == 0 then 16 else length)
    {
      var n := if length == 0 then SHARED_PASSWORD_DEFAULT_LEN else length;
      contents := RandStringRunes(n);
      s := contents;
    }

    method GetFromSecret(cli: Api.Server<SecretBody>) returns (r: Result<(), Api.ApiError>)
      requires cli.Valid()
      modifies cli, `contents
      ensures cli.Valid() && cli.log == old(cli.log)
      ensures cli.quiet ==> cli.objects == old(cli.objects)
      ensures r.Success? ==> Value().Key() in cli.objects
      ensures r.Success? ==> contents == DataOf(cli.objects[Value().Key()].body, Value().GetName())
      ensures r.Failure? ==> contents == old(contents)
      ensures r == Failure(Api.NotFound) ==> Value().Key() !in cli.objects
      ensures r.Success? ==>
        cli.answers == old(cli.answers) + [Api.Found(Value().Key(), Some(cli.objects[Value().Key()].body))]
      ensures r == Failure(Api.NotFound) ==> cli.answers == old(cli.answers) + [Api.Found(Value().Key(), None)]
      ensures cli.faults >= old(cli.faults)
      ensures r.Failure? && r.error != Api.NotFound ==> cli.faults > old(cli.faults)
    {
      var found := cli.Get(Value().Key());
      if found.Failure? {
        return Failure(found.error);
      }
      contents := DataOf(found.value.body, Value().GetName());
      return Success(());
    }
  }

  predicate Writes(e: Api.Event<SecretBody>, k: Api.Key, secret: SecretBody) {
    e == Api.Created(Api.Typed, k, secret) || e == Api.Updated(Api.Typed, k, secret)
  }

  /** kubeadm's helper: create the Secret, and overwrite it if it exists.  At most one write lands, and exactly one if
      it succeeds. */
  method CreateOrUpdateSecret(cli: Api.Server<SecretBody>, k: Api.Key, secret: SecretBody)
    returns (r: Result<(), Api.ApiError>, ghost e: seq<Api.Event<SecretBody>>)
    requires cli.Valid()
    modifies cli
    ensures cli.Valid()
    ensures cli.log == old(cli.log) + e && |e| <= 1 && (e != [] ==> Writes(e[0], k, secret))
    ensures r.Success? ==> e != []
    ensures cli.quiet ==>
      if e == [] then cli.objects == old(cli.objects)
      else Api.Bodies(cli.objects) == Api.Bodies(old(cli.objects))[k := secret]
    ensures cli.faults >= old(cli.faults) && (cli.quiet && r.Failure? ==> cli.faults > old(cli.faults))
  {
    var created := cli.Create(Api.Typed, k, secret);
    e := cli.log[|old(cli.log)|..];
    if created.Failure? {
      if created.error != Api.AlreadyExists {
        return Failure(created.error), e;
      }
      var updated := cli.Update(Api.Typed, k, secret, None);
      e := cli.log[|old(cli.log)|..];
      if updated.Failure? {
        return Failure(updated.error), e;
      }
    }
    return Success(()), e;
  }

  // Loading.

  /** The Secret of n in a real namespace, which has no slash, is called n and is in that namespace. */
  predicate IsKeyFor(namespace: string, n: string, key: Api.Key, name: string) {
    namespace != "" && '/' !in namespace ==> key == Api.Key(Api.Secret, namespace, n) && name == n
  }

  /** For a namespace with a slash, and only then, the Secret is another one. */
  lemma KeyIsNamespaceAndName(namespace: string, n: string, p: Password)
    requires namespace != "" && p.name == NamespacedNameToString(NamespacedName(namespace, n))
    ensures p.Key() == Api.Key(Api.Secret, namespace, n) <==> '/' !in namespace
    ensures p.AsSecret() == SecretBody("Opaque", map[n := p.contents]) <==> '/' !in namespace
  {
    ParseUndoesPrint(NamespacedName(namespace, n));
    if '/' in namespace {
      JoinOfParsed(p.name);
      assert p.name[..|namespace|] == namespace;
      assert p.GetNamespace() == p.name[..|p.GetNamespace()|];
      assert p.GetName() != n;
      assert n !in p.AsSecret().data;
    }
  }

  ghost predicate LoadedOne(bodies: Bodies, namespace: string, n: string, p: Password) {
    && p.name == NamespacedNameToString(NamespacedName(namespace, n))
    && IsKeyFor(namespace, n, p.Key(), p.GetName())
    && if p.Key() in bodies then p.contents == DataOf(bodies[p.Key()], p.GetName())
       else IsRandom(p.contents, 16)
  }

  /** One password for each requested name and for no other: the stored one, or a random one. */
  ghost predicate Loaded(bodies: Bodies, names: seq<string>, namespace: string, passwords: PasswordsSet) {
    && (forall n :: n in passwords <==> n in names)
    && (forall n :: n in passwords ==> LoadedOne(bodies, namespace, n, passwords[n]))
  }

  /** The name of the entry for n, and its contents: those of the Secret that was found, or random ones. */
  predicate MadeFrom(p: Password, namespace: string, n: string, found: Api.Found<SecretBody>) {
    && p.name == NamespacedNameToString(NamespacedName(namespace, n))
    && found.key == p.Key() && IsKeyFor(namespace, n, found.key, p.GetName())
    && match found.body
       case Some(secret) => p.contents == DataOf(secret, p.GetName())
       case None => IsRandom(p.contents, 16)
  }

  /** Each name was looked up once in turn, and each entry is made from what the last lookup for it has found. */
  ghost predicate MadeFromAnswers(names: seq<string>, namespace: string, answers: seq<Api.Found<SecretBody>>,
                                  passwords: PasswordsSet)
  {
    && |answers| == |names|
    && (forall n :: n in passwords <==> n in names)
    && (forall i :: 0 <= i < |names| && names[i] !in names[i + 1..] ==>
          names[i] in passwords && MadeFrom(passwords[names[i]], namespace, names[i], answers[i]))
  }

  lemma OneMoreAnswer(names: seq<string>, namespace: string, answers: seq<Api.Found<SecretBody>>,
                      passwords: PasswordsSet, n: string, p: Password, found: Api.Found<SecretBody>)
    requires MadeFromAnswers(names, namespace, answers, passwords) && MadeFrom(p, namespace, n, found)
    ensures MadeFromAnswers(names + [n], namespace, answers + [found], passwords[n := p])
  {
    var more := names + [n];
    forall i | 0 <= i < |names| && more[i] !in more[i + 1..]
      ensures names[i] != n && names[i] !in names[i + 1..]
    {
      LaterInMore(names, n, i);
    }
  }

  lemma LaterInMore(names: seq<string>, n: string, i: nat)
    requires i < |names|
    ensures (names + [n])[i + 1..] == names[i + 1..] + [n]
  {
  }

  /** The body of NewSharedPasswordsSet's loop: the stored password, or a random one if there is none. */
  method LoadOrRand(cli: Api.Server<SecretBody>, n: string, namespace: string)
    returns (r: Result<Password, Api.ApiError>, ghost answer: Api.Found<SecretBody>)
    requires cli.Valid()
    modifies cli
    ensures cli.Valid() && cli.log == old(cli.log) && cli.faults >= old(cli.faults)
    ensures cli.quiet ==> cli.objects == old(cli.objects)
    ensures r.Success? ==>
      cli.answers == old(cli.answers) + [answer] && MadeFrom(r.value, OrDefault(namespace), n, answer)
    ensures r.Success? ==> LoadedOne(Api.Bodies(cli.objects), OrDefault(namespace), n, r.value)
    ensures cli.faults == old(cli.faults) ==> r.Success?
  {
    answer := Api.Found(Api.Key(Api.Secret, "", ""), None);
    var sharedPassword := new SharedPassword(n, OrDefault(namespace));
    var found := sharedPassword.GetFromSecret(cli);
    if found == Failure(Api.NotFound) {
      var _ := sharedPassword.Rand(SHARED_PASSWORD_DEFAULT_LEN);
    } else if found.Failure? {
      return Failure(found.error), answer;
    }
    answer := cli.answers[|cli.answers| - 1];
    KeyIsNamespaceAndName(OrDefault(namespace), n, sharedPassword.Value());
    ParseUndoesPrint(NamespacedName(OrDefault(namespace), n));
    return Success(sharedPassword.Value()), answer;
  }

  lemma OneMoreLoaded(bodies: Bodies, names: seq<string>, namespace: string, passwords: PasswordsSet, n: string,
                      p: Password)
    requires Loaded(bodies, names, namespace, passwords) && LoadedOne(bodies, namespace, n, p)
    ensures Loaded(bodies, names + [n], namespace, passwords[n := p])
  {
  }

  method NewSharedPasswordsSet(cli: Api.Server<SecretBody>, names: seq<string>, namespace: string)
    returns (r: Result<PasswordsSet, Api.ApiError>, ghost answers: seq<Api.Found<SecretBody>>)
    requires cli.Valid()
    modifies cli
    ensures cli.Valid() && cli.log == old(cli.log)
    ensures cli.quiet ==> cli.objects == old(cli.objects)
    ensures r.Success? ==> cli.answers == old(cli.answers) + answers
    ensures var ns := if namespace == "" then "kube-system" else namespace;
            r.Success? ==> MadeFromAnswers(names, ns, answers, r.value)
    ensures cli.faults == old(cli.faults) ==> r.Success?
    ensures var ns := if namespace == "" then "kube-system" else namespace;
            cli.quiet && r.Success? ==> Loaded(Api.Bodies(cli.objects), names, ns, r.value)
  {
    var sharedPasswords: PasswordsSet := map[];
    answers := [];
    for i := 0 to |names|
      invariant cli.Valid() && cli.log == old(cli.log) && cli.faults >= old(cli.faults)
      invariant cli.quiet ==> cli.objects == old(cli.objects)
      invariant cli.answers == old(cli.answers) + answers
      invariant MadeFromAnswers(names[..i], OrDefault(namespace), answers, sharedPasswords)
      invariant cli.quiet ==> Loaded(Api.Bodies(cli.objects), names[..i], OrDefault(namespace), sharedPasswords)
    {
      assert names[..i + 1] == names[..i] + [names[i]];
      var loaded;
      ghost var answer;
      loaded, answer := LoadOrRand(cli, names[i], namespace);
      if loaded.Failure? {
        return Failure(loaded.error), answers;
      }
      OneMoreAnswer(names[..i], OrDefault(namespace), answers, sharedPasswords, names[i], loaded.value, answer);
      if cli.quiet {
        OneMoreLoaded(Api.Bodies(cli.objects), names[..i], OrDefault(namespace), sharedPasswords, names[i],
                      loaded.value);
      }
      Associate(old(cli.answers), answers, [answer]);
      answers := answers + [answer];
      sharedPasswords := sharedPasswords[names[i] := loaded.value];
    }
    assert names[..|names|] == names;
    return Success(sharedPasswords), answers;
  }

  // Publishing.

  /** Every password of the set has been written to its Secret, and nothing else has changed. */
  ghost predicate Published(before: Bodies, passwords: PasswordsSet, after: Bodies) {
    && (forall n :: n in passwords ==> passwords[n].Key() in after)
    && (forall k :: k in before ==> k in after)
    && (forall k :: k in after ==> WrittenOrKept(before, passwords, k, after[k]))
  }

  ghost predicate WrittenOrKept(before: Bodies, passwords: PasswordsSet, k: Api.Key, secret: SecretBody) {
    || (exists n :: n in passwords && passwords[n].Key() == k && passwords[n].AsSecret() == secret)
    || (k in before && before[k] == secret && forall n :: n in passwords ==> passwords[n].Key() != k)
  }

  ghost predicate Wrote(log: seq<Api.Event<SecretBody>>, p: Password) {
    exists i :: 0 <= i < |log| && Writes(log[i], p.Key(), p.AsSecret())
  }

  /** One write for each entry, and no other. */
  ghost predicate WroteAll(log: seq<Api.Event<SecretBody>>, passwords: PasswordsSet) {
    |log| == |passwords| && forall n :: n in passwords ==> Wrote(log, passwords[n])
  }

  lemma WroteOneMore(log: seq<Api.Event<SecretBody>>, written: PasswordsSet, e: Api.Event<SecretBody>, n: string,
                     p: Password)
    requires WroteAll(log, written) && n !in written && Writes(e, p.Key(), p.AsSecret())
    ensures WroteAll(log + [e], written[n := p])
  {
    var more := written[n := p];
    assert |more| == |written| + 1;
    forall m | m in more ensures Wrote(log + [e], more[m]) {
      if m == n {
        assert Writes((log + [e])[|log|], p.Key(), p.AsSecret());
      } else {
        var i :| 0 <= i < |log| && Writes(log[i], written[m].Key(), written[m].AsSecret());
        assert Writes((log + [e])[i], written[m].Key(), written[m].AsSecret());
      }
    }
  }

  ghost predicate IsAllBut(written: PasswordsSet, passwords: PasswordsSet, rest: set<string>) {
    && (forall n :: n in written <==> n in passwords && n !in rest)
    && (forall n :: n in written ==> written[n] == passwords[n])
  }

  lemma AllButOneLess(written: PasswordsSet, passwords: PasswordsSet, rest: set<string>, n: string)
    requires IsAllBut(written, passwords, rest) && n in rest && n in passwords
    ensures IsAllBut(written[n := passwords[n]], passwords, rest - {n})
  {
  }

  /** What the loop keeps: every entry but the rest has been written, and nothing else happened. */
  ghost predicate Underway(passwords: PasswordsSet, rest: set<string>, written: PasswordsSet,
                           writes: seq<Api.Event<SecretBody>>, quiet: bool, start: Bodies, now: Bodies)
  {
    && IsAllBut(written, passwords, rest)
    && WroteAll(writes, written)
    && (quiet ==> Published(start, written, now))
  }

  /** An attempt at one of the rest, with at most one write. */
  lemma AfterAttempt(passwords: PasswordsSet, rest: set<string>, written: PasswordsSet,
                     writes: seq<Api.Event<SecretBody>>, quiet: bool, start: Bodies, soFar: Bodies,
                     n: string, e: seq<Api.Event<SecretBody>>, now: Bodies)
    requires Underway(passwords, rest, written, writes, quiet, start, soFar) && n in rest && n in passwords
    requires |e| <= 1 && (e != [] ==> Writes(e[0], passwords[n].Key(), passwords[n].AsSecret()))
    requires quiet ==> now == if e == [] then soFar else soFar[passwords[n].Key() := passwords[n].AsSecret()]
    ensures if e == [] then Underway(passwords, rest, written, writes + e, quiet, start, now)
            else Underway(passwords, rest - {n}, written[n := passwords[n]], writes + e, quiet, start, now)
  {
    if e == [] {
      assert writes + e == writes;
    } else {
      assert e == [e[0]];
      AllButOneLess(written, passwords, rest, n);
      WroteOneMore(writes, written, e[0], n, passwords[n]);
      if quiet {
        PublishOneMore(start, written, soFar, n, passwords[n]);
      }
    }
  }

  lemma NothingLeft(passwords: PasswordsSet, written: PasswordsSet)
    requires IsAllBut(written, passwords, {})
    ensures written == passwords
  {
  }

  /** The set's entries are visited in an arbitrary order.  `written` are those whose Secret was written, all of them
      on success. */
  method CreateOrUpdateToSecrets(cli: Api.Server<SecretBody>, sharedPasswords: PasswordsSet)
    returns (r: Result<(), Api.ApiError>, ghost written: PasswordsSet, ghost writes: seq<Api.Event<SecretBody>>)
    requires cli.Valid()
    modifies cli
    ensures cli.Valid()
    ensures forall n :: n in written ==> n in sharedPasswords && written[n] == sharedPasswords[n]
    ensures r.Success? ==> written == sharedPasswords
    ensures cli.log == old(cli.log) + writes && WroteAll(writes, written)
    ensures cli.quiet ==> Published(old(Api.Bodies(cli.objects)), written, Api.Bodies(cli.objects))
    ensures cli.quiet && cli.faults == old(cli.faults) ==> r.Success?
  {
    ghost var start := Api.Bodies(cli.objects);
    var rest := sharedPasswords.Keys;
    written, writes := map[], [];
    while rest != {}
      invariant cli.Valid() && cli.faults >= old(cli.faults)
      invariant rest <= sharedPasswords.Keys
      invariant cli.log == old(cli.log) + writes
      invariant Underway(sharedPasswords, rest, written, writes, cli.quiet, start, Api.Bodies(cli.objects))
      decreases rest
    {
      var n :| n in rest;
      var p := sharedPasswords[n];
      ghost var soFar := Api.Bodies(cli.objects);
      var one;
      ghost var e;
      one, e := CreateOrUpdateSecret(cli, p.Key(), p.AsSecret());
      AfterAttempt(sharedPasswords, rest, written, writes, cli.quiet, start, soFar, n, e, Api.Bodies(cli.objects));
      Associate(old(cli.log), writes, e);
      written, writes := if e == [] then written else written[n := p], writes + e;
      if one.Failure? {
        return Failure(one.error), written, writes;
      }
      rest := rest - {n};
    }
    NothingLeft(sharedPasswords, written);
    return Success(()), written, writes;
  }

  lemma PublishOneMore(before: Bodies, written: PasswordsSet, after: Bodies, n: string, p: Password)
    requires Published(before, written, after) && n !in written
    ensures Published(before, written[n := p], after[p.Key() := p.AsSecret()])
  {
    var w, a := written[n := p], after[p.Key() := p.AsSecret()];
    forall k | k in a ensures WrittenOrKept(before, w, k, a[k]) {
      if k == p.Key() {
        assert n in w && w[n].Key() == k;
      } else {
        assert WrittenOrKept(before, written, k, after[k]);
        if m :| m in written && written[m].Key() == k && written[m].AsSecret() == after[k] {
          assert w[m] == written[m];
        }
      }
    }
  }

  // Publishing in any order.

  /** No two entries want the same Secret to hold different things. */
  ghost predicate NoClash(passwords: PasswordsSet) {
    forall m, n :: m in passwords && n in passwords && passwords[m].Key() == passwords[n].Key() ==>
      passwords[m].AsSecret() == passwords[n].AsSecret()
  }

  /** The outcome of publishing does not depend on the order of the entries exactly when no two of them clash. */
  lemma PublishingIsOrderIndependent(before: Bodies, passwords: PasswordsSet)
    ensures (forall a, b :: Published(before, passwords, a) && Published(before, passwords, b) ==> a == b)
       <==> NoClash(passwords)
  {
    if NoClash(passwords) {
      forall a, b | Published(before, passwords, a) && Published(before, passwords, b) ensures a == b {
        PublishedIsUnique(before, passwords, a, b);
      }
    } else {
      var m, n :| m in passwords && n in passwords && passwords[m].Key() == passwords[n].Key()
        && passwords[m].AsSecret() != passwords[n].AsSecret();
      var a := PublishedLast(before, passwords, m);
      var b := PublishedLast(before, passwords, n);
      assert a[passwords[m].Key()] != b[passwords[m].Key()];
    }
  }

  lemma PublishedIsUnique(before: Bodies, passwords: PasswordsSet, a: Bodies, b: Bodies)
    requires NoClash(passwords) && Published(before, passwords, a) && Published(before, passwords, b)
    ensures a == b
  {
    forall k | k in a ensures k in b && a[k] == b[k] {
      assert WrittenOrKept(before, passwords, k, a[k]);
      assert k in b;
      assert WrittenOrKept(before, passwords, k, b[k]);
    }
    forall k | k in b ensures k in a {
      assert WrittenOrKept(before, passwords, k, b[k]);
    }
  }

  /** A way of publishing in which the entry n is written last. */
  lemma PublishedLast(before: Bodies, passwords: PasswordsSet, n: string) returns (after: Bodies)
    requires n in passwords
    ensures Published(before, passwords, after)
    ensures after[passwords[n].Key()] == passwords[n].AsSecret()
    decreases passwords.Keys, 0
  {
    var rest := PublishSome(before, passwords - {n});
    PublishOneMore(before, passwords - {n}, rest, n, passwords[n]);
    after := rest[passwords[n].Key() := passwords[n].AsSecret()];
    assert (passwords - {n})[n := passwords[n]] == passwords;
  }

  lemma {:induction false} PublishSome(before: Bodies, passwords: PasswordsSet) returns (after: Bodies)
    ensures Published(before, passwords, after)
    decreases passwords.Keys, 1
  {
    if passwords == map[] {
      after := before;
    } else {
      var n :| n in passwords;
      after := PublishedLast(before, passwords, n);
    }
  }

  // Publishing and loading again.

  lemma KeyIsInjective(namespace: string, m: string, n: string, p: Password, q: Password)
    requires namespace != ""
    requires p.name == NamespacedNameToString(NamespacedName(namespace, m))
    requires q.name == NamespacedNameToString(NamespacedName(namespace, n))
    ensures p.Key() == q.Key() <==> m == n
  {
    JoinOfParsed(p.name);
    JoinOfParsed(q.name);
    assert p.name[|namespace| + 1..] == m && q.name[|namespace| + 1..] == n;
  }

  /** A loaded set never clashes: distinct names go to distinct Secrets, in every namespace. */
  lemma LoadedHasNoClash(bodies: Bodies, names: seq<string>, namespace: string, passwords: PasswordsSet)
    requires namespace != "" && Loaded(bodies, names, namespace, passwords)
    ensures NoClash(passwords)
    ensures forall m, n :: m in passwords && n in passwords && passwords[m].Key() == passwords[n].Key() ==> m == n
  {
    forall m, n | m in passwords && n in passwords && passwords[m].Key() == passwords[n].Key() ensures m == n {
      assert LoadedOne(bodies, namespace, m, passwords[m]) && LoadedOne(bodies, namespace, n, passwords[n]);
      KeyIsInjective(namespace, m, n, passwords[m], passwords[n]);
    }
  }

  /** In a real namespace each password of a loaded set is published in the Secret of its name there, as the one thing
      that this holds. */
  lemma LoadedIsPublished(bodies: Bodies, names: seq<string>, namespace: string, passwords: PasswordsSet,
                          before: Bodies, after: Bodies, n: string)
    requires namespace != "" && '/' !in namespace && Loaded(bodies, names, namespace, passwords)
    requires Published(before, passwords, after) && n in names
    ensures n in passwords && Api.Key(Api.Secret, namespace, n) in after
    ensures after[Api.Key(Api.Secret, namespace, n)] == SecretBody("Opaque", map[n := passwords[n].contents])
  {
    var p := passwords[n];
    assert LoadedOne(bodies, namespace, n, p);
    KeyIsNamespaceAndName(namespace, n, p);
    LoadedHasNoClash(bodies, names, namespace, passwords);
    assert WrittenOrKept(before, passwords, p.Key(), after[p.Key()]);
  }

  /** And it is loaded from there: what that Secret holds under the name, or a random password if there is none. */
  lemma LoadedFromItsSecret(bodies: Bodies, names: seq<string>, namespace: string, passwords: PasswordsSet, n: string)
    requires namespace != "" && '/' !in namespace && Loaded(bodies, names, namespace, passwords) && n in names
    ensures var key := Api.Key(Api.Secret, namespace, n);
            && n in passwords
            && (key in bodies ==>
                  passwords[n].contents == if n in bodies[key].data then bodies[key].data[n] else "")
            && (key !in bodies ==> IsRandom(passwords[n].contents, 16))
  {
    assert LoadedOne(bodies, namespace, n, passwords[n]);
  }

  lemma ReloadOne(bodies: Bodies, names: seq<string>, namespace: string, first: PasswordsSet,
                  published: Bodies, second: PasswordsSet, n: string)
    requires Loaded(bodies, names, namespace, first) && NoClash(first)
    requires Published(bodies, first, published)
    requires Loaded(published, names, namespace, second)
    requires n in names
    ensures n in first && n in second && second[n] == first[n]
  {
    var p, q := first[n], second[n];
    assert LoadedOne(bodies, namespace, n, p) && LoadedOne(published, namespace, n, q);
    assert q.Key() == p.Key() && q.GetName() == p.GetName();
    assert WrittenOrKept(bodies, first, p.Key(), published[p.Key()]);
    assert published[p.Key()] == p.AsSecret();
  }

  /** The whole round: load, publish in any order, load again.  Both loads give the same set,
      random passwords included. */
  lemma PublishThenReload(bodies: Bodies, names: seq<string>, namespace: string, first: PasswordsSet,
                          published: Bodies, second: PasswordsSet)
    requires namespace != ""
    requires Loaded(bodies, names, namespace, first)
    requires Published(bodies, first, published)
    requires Loaded(published, names, namespace, second)
    ensures first == second
  {
    LoadedHasNoClash(bodies, names, namespace, first);
    forall n | n in names ensures n in first && n in second && second[n] == first[n] {
      ReloadOne(bodies, names, namespace, first, published, second, n);
    }
    assert first.Keys == second.Keys;
  }
}

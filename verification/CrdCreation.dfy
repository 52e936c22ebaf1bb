/** Creating CRDs, or updating their validation (CreateCRDs in pkg/loader/crd.go). */
module CrdCreation {
  import opened Wrappers
  import opened ApiServer
  import opened Crds
  import opened Lists

  /** What the loader's part of the API server stores: CRDs, and objects from manifests. */
  datatype Asset = CrdAsset(shape: Shape, validation: string) | ManifestAsset(content: string)

  type Assets = map<Key, Asset>

  /** CRDs are cluster-scoped: only the name counts, whatever namespace the file gives. */
  function CrdKey(name: string): Key {
    Key(CustomResourceDefinition, "", name)
  }

  /** Of an existing CRD only the validation is replaced; anything else is left alone. */
  function SetValidation(existing: Asset, validation: string): Asset {
    if existing.CrdAsset? then existing.(validation := validation) else existing
  }

  function ApplyTo(existing: Option<Asset>, crd: Crd): Asset {
    match existing
    case None => CrdAsset(crd.shape, crd.validation)
    case Some(asset) => SetValidation(asset, crd.validation)
  }

  function Lookup(assets: Assets, k: Key): Option<Asset> {
    if k in assets then Some(assets[k]) else None
  }

  /** One step of the loop, and all of them in a given order. */
  function Apply(assets: Assets, crd: Crd): Assets {
    var k := CrdKey(crd.name);
    assets[k := ApplyTo(Lookup(assets, k), crd)]
  }

  function ApplyAll(assets: Assets, crds: seq<Crd>): Assets {
    if crds == [] then assets else Apply(ApplyAll(assets, crds[..|crds| - 1]), crds[|crds| - 1])
  }

  function Pick(crds: CrdsSet, keys: seq<string>): seq<Crd>
    requires forall k :: k in keys ==> k in crds
  {
    seq(|keys|, i requires 0 <= i < |keys| => crds[keys[i]])
  }

  /** All CRDs of a table have been applied, in some order. */
  ghost predicate AppliedInSomeOrder(crds: CrdsSet, before: Assets, after: Assets) {
    exists keys: seq<string> :: IsOrderOf(keys, crds) && after == ApplyAll(before, Pick(crds, keys))
  }

  ghost predicate IsOrderOf(keys: seq<string>, crds: CrdsSet) {
    NoRepeats(keys) && forall k :: k in keys <==> k in crds
  }

  /** The CRD created as it is, or an update that gives its validation to what is there, if that is a CRD. */
  predicate WritesCrd(e: Event<Asset>, crd: Crd) {
    && (e.Created? || e.Updated?) && e.client == Typed && e.key == Key(CustomResourceDefinition, "", crd.name)
    && (e.Created? ==> e.body == CrdAsset(crd.shape, crd.validation))
    && (e.Updated? && e.body.CrdAsset? ==> e.body.validation == crd.validation)
  }

  ghost predicate Written(log: seq<Event<Asset>>, crd: Crd) {
    exists i :: 0 <= i < |log| && WritesCrd(log[i], crd)
  }

  ghost predicate WritesOneOf(e: Event<Asset>, crds: CrdsSet) {
    exists k :: k in crds && WritesCrd(e, crds[k])
  }

  lemma WrittenStays(log: seq<Event<Asset>>, more: seq<Event<Asset>>, crd: Crd)
    requires Written(log, crd) || Written(more, crd)
    ensures Written(log + more, crd)
  {
    if Written(log, crd) {
      var i :| 0 <= i < |log| && WritesCrd(log[i], crd);
      assert WritesCrd((log + more)[i], crd);
    } else {
      var i :| 0 <= i < |more| && WritesCrd(more[i], crd);
      assert WritesCrd((log + more)[|log| + i], crd);
    }
  }

  /** The CRDs are visited in an arbitrary order; `visited` are the keys whose step was carried out.  With no other
      writer the server ends up as if those steps had been applied, in full on success and in part on failure. */
  method CreateCRDs(cli: Server<Asset>, crds: CrdsSet)
    returns (r: Result<(), ApiError>, ghost visited: seq<string>, ghost writes: seq<Event<Asset>>)
    requires cli.Valid()
    modifies cli
    ensures cli.Valid()
    ensures NoRepeats(visited) && forall k :: k in visited ==> k in crds
    ensures r.Success? ==> forall k :: k in crds ==> k in visited
    ensures cli.quiet ==> Bodies(cli.objects) == ApplyAll(Bodies(old(cli.objects)), Pick(crds, visited))
    ensures cli.log == old(cli.log) + writes
    ensures forall k :: k in visited ==> Written(writes, crds[k])
    ensures forall i :: 0 <= i < |writes| ==> WritesOneOf(writes[i], crds)
    ensures cli.faults >= old(cli.faults) && (cli.quiet && r.Failure? ==> cli.faults > old(cli.faults))
    ensures cli.clients == old(cli.clients) + 1
  {
    visited, writes := [], [];
    var connected := cli.Connect();
    if !connected {
      return Failure(Failed), [], [];
    }
    var todo := crds.Keys;
    while todo != {}
      invariant cli.Valid() && cli.faults >= old(cli.faults) && cli.clients == old(cli.clients) + 1
      invariant todo <= crds.Keys
      invariant NoRepeats(visited) && forall k :: k in visited <==> k in crds && k !in todo
      invariant cli.quiet ==> Bodies(cli.objects) == ApplyAll(Bodies(old(cli.objects)), Pick(crds, visited))
      invariant cli.log == old(cli.log) + writes
      invariant forall k :: k in visited ==> Written(writes, crds[k])
      invariant forall i :: 0 <= i < |writes| ==> WritesOneOf(writes[i], crds)
      decreases todo
    {
      var name :| name in todo;
      var crd := crds[name];
      var one;
      ghost var e;
      one, e := CreateOrUpdateCRD(cli, crd);
      assert Pick(crds, visited + [name]) == Pick(crds, visited) + [crd];
      forall k | k in visited ensures Written(writes + e, crds[k]) {
        WrittenStays(writes, e, crds[k]);
      }
      assert forall i :: 0 <= i < |e| ==> WritesCrd(e[i], crds[name]) && WritesOneOf(e[i], crds);
      writes := writes + e;
      if e != [] {
        assert WritesCrd(writes[|writes| - 1], crd);
        visited := visited + [name];
      }
      if one.Failure? {
        return one, visited, writes;
      }
      todo := todo - {name};
    }
    return Success(()), visited, writes;
  }

  /** The body of CreateCRDs' loop: at most one write, always of this CRD. */
  method CreateOrUpdateCRD(cli: Server<Asset>, crd: Crd) returns (r: Result<(), ApiError>, ghost e: seq<Event<Asset>>)
    requires cli.Valid()
    modifies cli
    ensures cli.Valid()
    ensures cli.log == old(cli.log) + e
    ensures |e| <= 1 && forall i :: 0 <= i < |e| ==> WritesCrd(e[i], crd)
    ensures r.Success? ==> e != []
    // The latest call found the server as `before` and left it with the CRD applied, or as it was.
    ensures Bodies(cli.objects) == if e == [] then Bodies(cli.before) else Apply(Bodies(cli.before), crd)
    ensures cli.quiet ==> cli.before == old(cli.objects)
    ensures cli.clients == old(cli.clients)
    ensures cli.faults >= old(cli.faults) && (cli.quiet && r.Failure? ==> cli.faults > old(cli.faults))
  {
    var k := CrdKey(crd.name);
    var existing := cli.Get(k);
    if existing == Failure(NotFound) {
      var created := cli.Create(Typed, k, CrdAsset(crd.shape, crd.validation));
      e := cli.log[|old(cli.log)|..];
      return if created.Failure? then Failure(created.error) else Success(()), e;
    } else if existing.Failure? {
      return Failure(existing.error), [];
    }
    var body := SetValidation(existing.value.body, crd.validation);
    var updated := cli.Update(Typed, k, body, Some(existing.value.version));
    e := cli.log[|old(cli.log)|..];
    return if updated.Failure? then Failure(updated.error) else Success(()), e;
  }

  // The effect on one name.

  /** What the steps do to the object of one name. */
  function ApplyNamed(asset: Option<Asset>, crds: seq<Crd>, name: string): Option<Asset> {
    if crds == [] then asset
    else
      var before := ApplyNamed(asset, crds[..|crds| - 1], name);
      if crds[|crds| - 1].name == name then Some(ApplyTo(before, crds[|crds| - 1])) else before
  }

  predicate HasName(crds: seq<Crd>, name: string) {
    exists i :: 0 <= i < |crds| && crds[i].name == name
  }

  lemma {:induction false} ApplyAllByName(assets: Assets, crds: seq<Crd>)
    ensures forall name ::
              Lookup(ApplyAll(assets, crds), CrdKey(name)) == ApplyNamed(Lookup(assets, CrdKey(name)), crds, name)
    ensures forall k: Key :: k != CrdKey(k.name) ==> Lookup(ApplyAll(assets, crds), k) == Lookup(assets, k)
  {
    if crds != [] {
      ApplyAllByName(assets, crds[..|crds| - 1]);
    }
  }

  lemma SameLookups(a: Assets, b: Assets)
    requires forall k :: Lookup(a, k) == Lookup(b, k)
    ensures a == b
  {
    assert forall k :: k in a <==> k in b by {
      forall k ensures k in a <==> k in b { assert Lookup(a, k) == Lookup(b, k); }
    }
    forall k | k in a ensures a[k] == b[k] { assert Lookup(a, k) == Lookup(b, k); }
  }

  /** CRDs of the same name agree on everything that reaches the server. */
  ghost predicate SameSpecs(crds: seq<Crd>) {
    forall i, j :: 0 <= i < |crds| && 0 <= j < |crds| && crds[i].name == crds[j].name ==> SameSpec(crds[i], crds[j])
  }

  predicate SameSpec(a: Crd, b: Crd) {
    a.shape == b.shape && a.validation == b.validation
  }

  /** With agreeing specs, one occurrence of a name does all there is to do for it. */
  lemma {:induction false} ApplyNamedOnce(asset: Option<Asset>, crds: seq<Crd>, i: nat)
    requires SameSpecs(crds) && i < |crds|
    ensures ApplyNamed(asset, crds, crds[i].name) == Some(ApplyTo(asset, crds[i]))
  {
    var n := |crds| - 1;
    var init, name := crds[..n], crds[i].name;
    if i < n {
      ApplyNamedOnce(asset, init, i);
      assert crds[n].name == name ==> SameSpec(crds[n], crds[i]);
    } else if HasName(init, name) {
      var j :| 0 <= j < n && init[j].name == name;
      ApplyNamedOnce(asset, init, j);
      assert SameSpec(crds[n], crds[j]);
    } else {
      ApplyNamedNever(asset, init, name);
    }
  }

  lemma {:induction false} ApplyNamedNever(asset: Option<Asset>, crds: seq<Crd>, name: string)
    requires !HasName(crds, name)
    ensures ApplyNamed(asset, crds, name) == asset
  {
    if crds != [] {
      var n := |crds| - 1;
      assert crds[n].name != name;
      assert forall i :: 0 <= i < n ==> crds[..n][i] == crds[i];
      ApplyNamedNever(asset, crds[..n], name);
    }
  }

  // The outcome, described without any order.

  /** Every CRD is there with its own validation, an object that was there before has changed in nothing else,
      a new one has the shape asked for, and all other objects are as they were. */
  ghost predicate Installed(before: Assets, crds: seq<Crd>, after: Assets) {
    && (forall i :: 0 <= i < |crds| ==> InstalledOne(before, crds[i], after))
    && (forall k: Key :: !IsKeyOfOne(crds, k) ==> Lookup(after, k) == Lookup(before, k))
  }

  ghost predicate IsKeyOfOne(crds: seq<Crd>, k: Key) {
    k.kind == CustomResourceDefinition && k.namespace == "" && HasName(crds, k.name)
  }

  ghost predicate InstalledOne(before: Assets, crd: Crd, after: Assets) {
    var k := Key(CustomResourceDefinition, "", crd.name);
    && k in after
    && after[k] == if k !in before then CrdAsset(crd.shape, crd.validation)
                   else if before[k].CrdAsset? then CrdAsset(before[k].shape, crd.validation)
                   else before[k]
  }

  /** The description is met by applying the CRDs in any order whatever, and by nothing else. */
  lemma InstalledIsApplyAll(before: Assets, crds: seq<Crd>, after: Assets)
    requires SameSpecs(crds)
    ensures Installed(before, crds, after) <==> after == ApplyAll(before, crds)
  {
    var all := ApplyAll(before, crds);
    ApplyAllByName(before, crds);
    forall i | 0 <= i < |crds| ensures InstalledOne(before, crds[i], all) {
      ApplyNamedOnce(Lookup(before, CrdKey(crds[i].name)), crds, i);
    }
    forall k: Key | !IsKeyOfOne(crds, k) ensures Lookup(all, k) == Lookup(before, k) {
      if k == CrdKey(k.name) {
        ApplyNamedNever(Lookup(before, k), crds, k.name);
      }
    }
    if Installed(before, crds, after) {
      forall k ensures Lookup(after, k) == Lookup(all, k) {
        if IsKeyOfOne(crds, k) {
          var i :| 0 <= i < |crds| && crds[i].name == k.name;
          assert InstalledOne(before, crds[i], after) && InstalledOne(before, crds[i], all);
        }
      }
      SameLookups(after, all);
    }
  }

  // Independence of the order.

  ghost predicate OrderIndependent(crds: seq<Crd>) {
    forall assets, a, b :: multiset(a) == multiset(crds) && multiset(b) == multiset(crds) ==>
      ApplyAll(assets, a) == ApplyAll(assets, b)
  }

  /** The outcome is the same for every order and every server exactly when CRDs of the same name have the same spec. */
  lemma OrderIndependence(crds: seq<Crd>)
    ensures OrderIndependent(crds) <==> SameSpecs(crds)
  {
    if SameSpecs(crds) {
      forall assets, a, b | multiset(a) == multiset(crds) && multiset(b) == multiset(crds)
        ensures ApplyAll(assets, a) == ApplyAll(assets, b)
      {
        SameElements(a, crds);
        SameElements(b, crds);
        InstalledIsApplyAll(assets, b, ApplyAll(assets, b));
        InstalledReordered(assets, b, a, ApplyAll(assets, b));
        InstalledIsApplyAll(assets, a, ApplyAll(assets, b));
      }
    } else {
      var i, j :| 0 <= i < |crds| && 0 <= j < |crds| && crds[i].name == crds[j].name && !SameSpec(crds[i], crds[j]);
      if i < j { OrderMatters(crds, i, j); } else { OrderMatters(crds, j, i); }
    }
  }

  lemma SameElements(a: seq<Crd>, b: seq<Crd>)
    requires multiset(a) == multiset(b)
    ensures forall c :: c in a <==> c in b
    ensures SameSpecs(b) ==> SameSpecs(a)
  {
    forall c ensures c in a <==> c in b {
      assert c in a <==> c in multiset(a);
      assert c in b <==> c in multiset(b);
    }
    if SameSpecs(b) {
      forall i, j | 0 <= i < |a| && 0 <= j < |a| && a[i].name == a[j].name ensures SameSpec(a[i], a[j]) {
        assert a[i] in b && a[j] in b;
      }
    }
  }

  lemma InstalledReordered(before: Assets, a: seq<Crd>, b: seq<Crd>, after: Assets)
    requires Installed(before, a, after) && forall c :: c in a <==> c in b
    ensures Installed(before, b, after)
  {
    forall i | 0 <= i < |b| ensures InstalledOne(before, b[i], after) {
      assert b[i] in a;
    }
    forall name ensures HasName(a, name) <==> HasName(b, name) {
      if HasName(a, name) {
        var i :| 0 <= i < |a| && a[i].name == name;
        assert a[i] in b;
      }
      if HasName(b, name) {
        var i :| 0 <= i < |b| && b[i].name == name;
        assert b[i] in a;
      }
    }
  }

  /** Of two CRDs with one name, a fresh server gets the shape of the first and the validation of the last. */
  lemma {:induction false} FirstShapeLastValidation(first: Crd, middle: seq<Crd>, last: Crd)
    requires first.name == last.name
    ensures ApplyNamed(None, [first] + middle, first.name).Some?
    ensures ApplyNamed(None, [first] + middle, first.name).value.CrdAsset?
    ensures ApplyNamed(None, [first] + middle, first.name).value.shape == first.shape
    ensures ApplyNamed(None, [first] + middle + [last], first.name) == Some(CrdAsset(first.shape, last.validation))
  {
    var crds := [first] + middle;
    if middle == [] {
      assert crds == [first] && crds[..0] == [];
    } else {
      var n := |middle| - 1;
      FirstShapeLastValidation(first, middle[..n], last);
      assert crds[..|crds| - 1] == [first] + middle[..n];
    }
    assert (crds + [last])[..|crds|] == crds;
  }

  function Middle(crds: seq<Crd>, i: nat, j: nat): seq<Crd>
    requires i < j < |crds|
  {
    crds[..i] + crds[i + 1..j] + crds[j + 1..]
  }

  lemma PulledOut(crds: seq<Crd>, i: nat, j: nat)
    requires i < j < |crds|
    ensures multiset(crds) == multiset{crds[i], crds[j]} + multiset(Middle(crds, i, j))
  {
    assert crds == crds[..j] + [crds[j]] + crds[j + 1..];
    assert crds[..j] == crds[..i] + [crds[i]] + crds[i + 1..j];
    assert multiset(crds) == multiset(crds[..j]) + multiset{crds[j]} + multiset(crds[j + 1..]);
    assert multiset(crds[..j]) == multiset(crds[..i]) + multiset{crds[i]} + multiset(crds[i + 1..j]);
  }

  lemma EndsSwapped(x: Crd, middle: seq<Crd>, y: Crd)
    requires x.name == y.name && !SameSpec(x, y)
    ensures ApplyAll(map[], [x] + middle + [y]) != ApplyAll(map[], [y] + middle + [x])
  {
    var a, b := [x] + middle + [y], [y] + middle + [x];
    FirstShapeLastValidation(x, middle, y);
    FirstShapeLastValidation(y, middle, x);
    ApplyAllByName(map[], a);
    ApplyAllByName(map[], b);
    assert Lookup(ApplyAll(map[], a), CrdKey(x.name)) != Lookup(ApplyAll(map[], b), CrdKey(x.name));
  }

  lemma OrderMatters(crds: seq<Crd>, i: nat, j: nat)
    requires i < j < |crds| && crds[i].name == crds[j].name && !SameSpec(crds[i], crds[j])
    ensures !OrderIndependent(crds)
  {
    PulledOut(crds, i, j);
    EndsSwapped(crds[i], Middle(crds, i, j), crds[j]);
    TwoOrders(crds, crds[i], Middle(crds, i, j), crds[j]);
  }

  lemma TwoOrders(crds: seq<Crd>, x: Crd, middle: seq<Crd>, y: Crd)
    requires multiset(crds) == multiset{x, y} + multiset(middle)
    requires ApplyAll(map[], [x] + middle + [y]) != ApplyAll(map[], [y] + middle + [x])
    ensures !OrderIndependent(crds)
  {
    var a, b := [x] + middle + [y], [y] + middle + [x];
    Wrapped(x, middle, y);
    Wrapped(y, middle, x);
  }

  lemma Wrapped(x: Crd, middle: seq<Crd>, y: Crd)
    ensures multiset([x] + middle + [y]) == multiset{x, y} + multiset(middle)
    ensures multiset{x, y} == multiset{y, x}
  {
  }

  // A second run.

  /** CRDs of the same name agree on the validation. */
  ghost predicate SameValidations(crds: seq<Crd>) {
    forall i, j :: 0 <= i < |crds| && 0 <= j < |crds| && crds[i].name == crds[j].name ==>
      crds[i].validation == crds[j].validation
  }

  /** Applying the CRD would change nothing. */
  predicate Settled(assets: Assets, crd: Crd) {
    var k := CrdKey(crd.name);
    k in assets && SetValidation(assets[k], crd.validation) == assets[k]
  }

  /** A second run, in any order and on any server, changes nothing exactly when CRDs of the same name agree on the
      validation, whatever their shapes. */
  lemma SecondRunChangesNothing(first: seq<Crd>)
    ensures (forall assets, second :: multiset(second) == multiset(first) ==>
               ApplyAll(ApplyAll(assets, first), second) == ApplyAll(assets, first))
       <==> SameValidations(first)
  {
    if SameValidations(first) {
      forall assets, second | multiset(second) == multiset(first)
        ensures ApplyAll(ApplyAll(assets, first), second) == ApplyAll(assets, first)
      {
        AllSettled(assets, first);
        SameElements(second, first);
        forall i | 0 <= i < |second| ensures Settled(ApplyAll(assets, first), second[i]) {
          assert second[i] in first;
        }
        SettledStays(ApplyAll(assets, first), second);
      }
    } else {
      var i, j :| 0 <= i < |first| && 0 <= j < |first| && first[i].name == first[j].name
        && first[i].validation != first[j].validation;
      if Settled(ApplyAll(map[], first), first[i]) {
        FirstRunIsCrd(first, i);
        assert !Settled(ApplyAll(map[], first), first[j]);
        SecondRunUnsettles(first, j);
      } else {
        SecondRunUnsettles(first, i);
      }
    }
  }

  lemma {:induction false} AllSettled(assets: Assets, crds: seq<Crd>)
    requires SameValidations(crds)
    ensures forall i :: 0 <= i < |crds| ==> Settled(ApplyAll(assets, crds), crds[i])
  {
    if crds != [] {
      var n := |crds| - 1;
      AllSettled(assets, crds[..n]);
      forall i | 0 <= i < n ensures Settled(ApplyAll(assets, crds), crds[i]) {
        assert crds[..n][i] == crds[i];
        assert crds[i].name == crds[n].name ==> crds[i].validation == crds[n].validation;
      }
    }
  }

  lemma {:induction false} SettledStays(assets: Assets, crds: seq<Crd>)
    requires forall i :: 0 <= i < |crds| ==> Settled(assets, crds[i])
    ensures ApplyAll(assets, crds) == assets
  {
    if crds != [] {
      SettledStays(assets, crds[..|crds| - 1]);
      assert Settled(assets, crds[|crds| - 1]);
    }
  }

  /** On a new server the first run leaves a CRD for each name. */
  lemma {:induction false} FirstRunIsCrd(crds: seq<Crd>, i: nat)
    requires i < |crds|
    ensures var k := CrdKey(crds[i].name); k in ApplyAll(map[], crds) && ApplyAll(map[], crds)[k].CrdAsset?
  {
    OnlyCrds(crds);
    var n := |crds| - 1;
    if i < n {
      FirstRunIsCrd(crds[..n], i);
    }
  }

  lemma {:induction false} OnlyCrds(crds: seq<Crd>)
    ensures forall k :: k in ApplyAll(map[], crds) ==> ApplyAll(map[], crds)[k].CrdAsset?
  {
    if crds != [] {
      OnlyCrds(crds[..|crds| - 1]);
    }
  }

  /** A second run that ends with a CRD which the first has not settled makes a difference. */
  lemma SecondRunUnsettles(first: seq<Crd>, i: nat)
    requires i < |first| && !Settled(ApplyAll(map[], first), first[i])
    ensures exists second :: multiset(second) == multiset(first)
                          && ApplyAll(ApplyAll(map[], first), second) != ApplyAll(map[], first)
  {
    MovedToTheEnd(first, i);
    LastIsSettled(ApplyAll(map[], first), ToTheEnd(first, i));
  }

  function ToTheEnd(crds: seq<Crd>, i: nat): (r: seq<Crd>)
    requires i < |crds|
    ensures r != [] && r[|r| - 1] == crds[i]
  {
    crds[..i] + crds[i + 1..] + [crds[i]]
  }

  lemma MovedToTheEnd(crds: seq<Crd>, i: nat)
    requires i < |crds|
    ensures multiset(ToTheEnd(crds, i)) == multiset(crds)
  {
    assert crds == crds[..i] + [crds[i]] + crds[i + 1..];
  }

  lemma LastIsSettled(assets: Assets, crds: seq<Crd>)
    requires crds != []
    ensures Settled(ApplyAll(assets, crds), crds[|crds| - 1])
  {
  }

  // Tables, which Go walks in an arbitrary order.

  ghost predicate OneOutcome(crds: CrdsSet) {
    forall before, a, b :: AppliedInSomeOrder(crds, before, a) && AppliedInSomeOrder(crds, before, b) ==> a == b
  }

  /** Entries for the same name at the server have the same spec. */
  ghost predicate EntriesAgree(crds: CrdsSet) {
    forall j, k :: j in crds && k in crds && crds[j].name == crds[k].name ==> SameSpec(crds[j], crds[k])
  }

  /** Installing a table has one outcome exactly when entries of the same name have the same spec. */
  lemma TablesHaveOneOutcome(crds: CrdsSet)
    ensures OneOutcome(crds) <==> EntriesAgree(crds)
  {
    if EntriesAgree(crds) {
      forall before, a, b | AppliedInSomeOrder(crds, before, a) && AppliedInSomeOrder(crds, before, b) ensures a == b {
        AgreeingEntries(crds, before, a, b);
      }
    } else {
      var j, k :| j in crds && k in crds && crds[j].name == crds[k].name && !SameSpec(crds[j], crds[k]);
      DisagreeingEntries(crds, j, k);
    }
  }

  /** Among CRDs that were read from files, those count that no later one with the same namespace and name replaces;
      so two CRDs of one name and different specs go by chance if their files give different namespaces. */
  lemma ReadTablesHaveOneOutcome(crds: seq<Crd>)
    ensures OneOutcome(ByName(crds)) <==>
            forall i: nat, j: nat :: (&& i < |crds| && j < |crds| && Stays(crds, i) && Stays(crds, j)
                                      && crds[i].name == crds[j].name) ==> SameSpec(crds[i], crds[j])
  {
    var table := ByName(crds);
    TablesHaveOneOutcome(table);
    forall i: nat | i < |crds| && Stays(crds, i)
      ensures NamespacedObjToString(crds[i]) in table && table[NamespacedObjToString(crds[i])] == crds[i]
    {
      StaysInTheTable(crds, i);
    }
    if !EntriesAgree(table) {
      var p, q :| p in table && q in table && table[p].name == table[q].name && !SameSpec(table[p], table[q]);
      var i := IndexInFiles(crds, p);
      var j := IndexInFiles(crds, q);
      assert Stays(crds, i) && Stays(crds, j);
    }
  }

  /** As real namespaces and names have no slash, those are the ones that no later CRD for the same object follows. */
  lemma FilesHaveOneOutcome(crds: seq<Crd>)
    requires forall c :: c in crds ==> SlashFree(c)
    ensures OneOutcome(ByName(crds)) <==>
            forall i: nat, j: nat :: (&& i < |crds| && j < |crds| && IsNotReplaced(crds, i) && IsNotReplaced(crds, j)
                                      && crds[i].name == crds[j].name) ==> SameSpec(crds[i], crds[j])
  {
    ReadTablesHaveOneOutcome(crds);
    forall i: nat | i < |crds| ensures Stays(crds, i) <==> IsNotReplaced(crds, i) {
      StaysExactly(crds, i);
    }
  }

  lemma AgreeingEntries(crds: CrdsSet, before: Assets, a: Assets, b: Assets)
    requires EntriesAgree(crds)
    requires AppliedInSomeOrder(crds, before, a) && AppliedInSomeOrder(crds, before, b)
    ensures a == b
  {
    var p: seq<string> :| IsOrderOf(p, crds) && a == ApplyAll(before, Pick(crds, p));
    var q: seq<string> :| IsOrderOf(q, crds) && b == ApplyAll(before, Pick(crds, q));
    PickedSpecs(crds, p);
    PickedSpecs(crds, q);
    InstalledIsApplyAll(before, Pick(crds, p), a);
    PickedAlike(crds, p, q);
    InstalledReordered(before, Pick(crds, p), Pick(crds, q), a);
    InstalledIsApplyAll(before, Pick(crds, q), a);
  }

  /** Two entries that disagree give different results first and last, and last and first. */
  lemma DisagreeingEntries(crds: CrdsSet, j: string, k: string)
    requires j in crds && k in crds && crds[j].name == crds[k].name && !SameSpec(crds[j], crds[k])
    ensures !OneOutcome(crds)
  {
    var middle := SomeOrder(crds.Keys - {j, k});
    WrappedOrder(crds, j, middle, k);
    WrappedOrder(crds, k, middle, j);
    EndsSwapped(crds[j], Pick(crds, middle), crds[k]);
    var a := ApplyAll(map[], [crds[j]] + Pick(crds, middle) + [crds[k]]);
    var b := ApplyAll(map[], [crds[k]] + Pick(crds, middle) + [crds[j]]);
    assert AppliedInSomeOrder(crds, map[], a) && AppliedInSomeOrder(crds, map[], b);
  }

  lemma WrappedOrder(crds: CrdsSet, j: string, middle: seq<string>, k: string)
    requires j in crds && k in crds && j != k
    requires NoRepeats(middle) && forall x :: x in middle <==> x in crds.Keys - {j, k}
    ensures AppliedInSomeOrder(crds, map[], ApplyAll(map[], [crds[j]] + Pick(crds, middle) + [crds[k]]))
  {
    var keys := [j] + middle + [k];
    assert keys[0] == j && keys[|keys| - 1] == k && keys[1..|keys| - 1] == middle;
    assert forall x :: x in keys <==> x == j || x in middle || x == k;
    assert Pick(crds, keys) == [crds[j]] + Pick(crds, middle) + [crds[k]];
    assert IsOrderOf(keys, crds);
  }

  /** Any set of keys can be walked in some order. */
  lemma SomeOrder(keys: set<string>) returns (order: seq<string>)
    ensures NoRepeats(order) && forall x :: x in order <==> x in keys
  {
    order := [];
    if keys != {} {
      var k :| k in keys;
      order := SomeOrder(keys - {k});
      order := order + [k];
    }
  }

  lemma PickedSpecs(crds: CrdsSet, keys: seq<string>)
    requires IsOrderOf(keys, crds)
    requires EntriesAgree(crds)
    ensures SameSpecs(Pick(crds, keys))
  {
    assert forall i :: 0 <= i < |keys| ==> keys[i] in crds;
  }

  lemma PickedAlike(crds: CrdsSet, p: seq<string>, q: seq<string>)
    requires IsOrderOf(p, crds) && IsOrderOf(q, crds)
    ensures forall c :: c in Pick(crds, p) <==> c in Pick(crds, q)
  {
    PickedFrom(crds, p, q);
    PickedFrom(crds, q, p);
  }

  lemma PickedFrom(crds: CrdsSet, p: seq<string>, q: seq<string>)
    requires IsOrderOf(p, crds) && IsOrderOf(q, crds)
    ensures forall c :: c in Pick(crds, p) ==> c in Pick(crds, q)
  {
    forall c | c in Pick(crds, p) ensures c in Pick(crds, q) {
      var i :| 0 <= i < |p| && Pick(crds, p)[i] == c;
      assert p[i] in crds && p[i] in q;
      var j :| 0 <= j < |q| && q[j] == p[i];
      assert Pick(crds, q)[j] == c;
    }
  }
}

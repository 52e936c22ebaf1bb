/** Create-or-update of Pods, Jobs, Services and arbitrary manifests (pkg/client/utils.go). */
module CreateOrUpdate {
  import opened Wrappers
  import opened ApiServer

  /** An API object as these functions see it: they only ever touch the spec. */
  datatype Object<+S> = Object(metadata: string, spec: S)

  /** The spec of a Service: the two fields that are updated, and everything else. */
  datatype ServiceSpec = ServiceSpec(serviceType: string, ports: seq<string>, rest: string)

  // What the calls mean, on the contents of the whole server.

  function PodApplied<S>(bodies: map<Key, Object<S>>, k: Key, pod: Object<S>): map<Key, Object<S>> {
    bodies[k := if k in bodies then bodies[k].(spec := pod.spec) else pod]
  }

  function ServiceApplied(bodies: map<Key, Object<ServiceSpec>>, k: Key, service: Object<ServiceSpec>)
    : map<Key, Object<ServiceSpec>>
  {
    if k !in bodies then bodies[k := service]
    else
      var spec := bodies[k].spec.(serviceType := service.spec.serviceType, ports := service.spec.ports);
      bodies[k := bodies[k].(spec := spec)]
  }

  /** Applying a Pod or Job gives it the requested spec, keeps the metadata it had and touches no other object;
      nothing else does, and applying it again changes nothing. */
  lemma PodAppliedIsExact<S>(bodies: map<Key, Object<S>>, k: Key, pod: Object<S>, after: map<Key, Object<S>>)
    ensures after == PodApplied(bodies, k, pod) <==>
            && k in after
            && after[k].spec == pod.spec
            && after[k].metadata == (if k in bodies then bodies[k].metadata else pod.metadata)
            && after - {k} == bodies - {k}
    ensures PodApplied(PodApplied(bodies, k, pod), k, pod) == PodApplied(bodies, k, pod)
  {
    if k in after && after - {k} == bodies - {k} {
      SameElsewhere(bodies, after, k);
    }
    var once := PodApplied(bodies, k, pod);
    assert once - {k} == bodies - {k};
    assert PodApplied(once, k, pod) == once;
  }

  lemma SameElsewhere<T>(a: map<Key, T>, b: map<Key, T>, k: Key)
    requires k in b && b - {k} == a - {k}
    ensures b == a[k := b[k]]
  {
    forall x | x in b && x != k ensures x in a && a[x] == b[x] {
      assert x in b - {k} && (b - {k})[x] == (a - {k})[x];
    }
    forall x | x in a && x != k ensures x in b {
      assert x in a - {k};
    }
  }

  /** Applying a Service guarantees its type and ports only: the spec ends up as requested exactly when the
      rest of it was so already.  A second application changes nothing all the same. */
  lemma ServiceAppliedIsExact(bodies: map<Key, Object<ServiceSpec>>, k: Key, service: Object<ServiceSpec>)
    ensures var after := ServiceApplied(bodies, k, service);
            && k in after && after - {k} == bodies - {k}
            && (k !in bodies ==> after[k] == service)
            && after[k].spec.serviceType == service.spec.serviceType && after[k].spec.ports == service.spec.ports
            && (k in bodies ==> after[k].metadata == bodies[k].metadata && after[k].spec.rest == bodies[k].spec.rest)
            && (after[k].spec == service.spec <==> (k in bodies ==> bodies[k].spec.rest == service.spec.rest))
            && ServiceApplied(after, k, service) == after
  {
    var after := ServiceApplied(bodies, k, service);
    assert after - {k} == bodies - {k};
    assert ServiceApplied(after, k, service) == after;
  }

  /** CreateOrUpdatePod and CreateOrUpdateJob, which differ in the kind only. */
  method CreateOrUpdateWorkload<S(==)>(client: Server<Object<S>>, k: Key, wanted: Object<S>)
    returns (r: Result<Object<S>, ApiError>)
    requires client.Valid()
    modifies client
    ensures client.Valid()
    ensures client.quiet ==> client.before == old(client.objects)
    // Success: the latest call found the server as `before` and left it with the object applied.
    ensures r.Success? ==> Bodies(client.objects) == PodApplied(Bodies(client.before), k, wanted)
    ensures r.Success? ==> k in client.objects && r.value == client.objects[k].body
    // Failure: the same, or nothing.
    ensures r.Failure? ==> || Bodies(client.objects) == Bodies(client.before)
                           || Bodies(client.objects) == PodApplied(Bodies(client.before), k, wanted)
    // A matching object is only read.
    ensures k in client.before && client.before[k].body.spec == wanted.spec ==>
              client.objects == client.before && client.log == old(client.log)
    ensures client.log == old(client.log) || (|client.log| == |old(client.log)| + 1 && old(client.log) <= client.log)
    // With no fault and no other writer it succeeds.
    ensures client.faults >= old(client.faults)
    ensures client.quiet && client.faults == old(client.faults) ==> r.Success?
  {
    var found := client.Get(k);
    if found == Failure(NotFound) {
      var created := client.Create(Typed, k, wanted);
      if created.Failure? {
        return Failure(created.error);
      }
      return Success(created.value.body);
    } else if found.Failure? {
      return Failure(found.error);
    }
    var existing := found.value;
    if wanted.spec != existing.body.spec {
      var updated := client.Update(Typed, k, existing.body.(spec := wanted.spec), Some(existing.version));
      if updated.Failure? {
        return Failure(updated.error);
      }
      return Success(updated.value.body);
    }
    return Success(existing.body);
  }

  method CreateOrUpdateService(client: Server<Object<ServiceSpec>>, k: Key, service: Object<ServiceSpec>)
    returns (r: Result<Object<ServiceSpec>, ApiError>)
    requires client.Valid()
    modifies client
    ensures client.Valid()
    ensures client.quiet ==> client.before == old(client.objects)
    ensures r.Success? ==> Bodies(client.objects) == ServiceApplied(Bodies(client.before), k, service)
    ensures r.Success? ==> k in client.objects && r.value == client.objects[k].body
    ensures r.Failure? ==> || Bodies(client.objects) == Bodies(client.before)
                           || Bodies(client.objects) == ServiceApplied(Bodies(client.before), k, service)
    ensures k in client.before && client.before[k].body.spec == service.spec ==>
              client.objects == client.before && client.log == old(client.log)
    ensures client.log == old(client.log) || (|client.log| == |old(client.log)| + 1 && old(client.log) <= client.log)
    // With no fault and no other writer it succeeds.
    ensures client.faults >= old(client.faults)
    ensures client.quiet && client.faults == old(client.faults) ==> r.Success?
  {
    var found := client.Get(k);
    if found == Failure(NotFound) {
      var created := client.Create(Typed, k, service);
      if created.Failure? {
        return Failure(created.error);
      }
      return Success(created.value.body);
    } else if found.Failure? {
      return Failure(found.error);
    }
    var existing := found.value;
    if service.spec != existing.body.spec {
      var spec := existing.body.spec.(serviceType := service.spec.serviceType, ports := service.spec.ports);
      var updated := client.Update(Typed, k, existing.body.(spec := spec), Some(existing.version));
      if updated.Failure? {
        return Failure(updated.error);
      }
      return Success(updated.value.body);
    }
    return Success(existing.body);
  }

  /** An object read from a manifest file; the version is what the file itself gives, normally none. */
  datatype Unstructured<+B> = Unstructured(key: Key, body: B, version: Option<nat>)

  /** Unlike the typed forms this one creates first and then overwrites the whole object, metadata included. */
  method CreateOrUpdateFromUnstructured<B>(client: Server<B>, unstr: Unstructured<B>)
    returns (r: Result<(), ApiError>)
    requires client.Valid()
    modifies client
    ensures client.Valid()
    ensures r.Success? ==> Bodies(client.objects) == Bodies(client.before)[unstr.key := unstr.body]
    ensures r.Success? ==> client.log != old(client.log)
    ensures client.quiet ==>
      Bodies(client.objects) ==
        if client.log == old(client.log) then Bodies(old(client.objects))
        else Bodies(old(client.objects))[unstr.key := unstr.body]
    ensures || client.log == old(client.log)
            || client.log == old(client.log) + [Created(Dynamic, unstr.key, unstr.body)]
            || client.log == old(client.log) + [Updated(Dynamic, unstr.key, unstr.body)]
    ensures client.faults >= old(client.faults)
    ensures client.quiet && client.faults == old(client.faults) && unstr.version.None? ==> r.Success?
    // One attempt, which asks for the creation unless it breaks down before.
    ensures client.clients == old(client.clients) + 1
    ensures || client.posts == old(client.posts)
            || client.posts == old(client.posts) + [Created(Dynamic, unstr.key, unstr.body)]
    ensures client.posts == old(client.posts) ==> client.faults > old(client.faults)
    // If it fails for no fault, the object was gone again, or had another version than the one given.
    ensures r.Failure? && client.faults == old(client.faults) ==>
      || unstr.key !in client.before
      || (unstr.version.Some? && client.before[unstr.key].version != unstr.version.value)
  {
    // The dynamic client, discovery, the resource mapping and the name accessors.
    var resolved := client.Connect();
    if !resolved {
      return Failure(Failed);
    }
    var created := client.Create(Dynamic, unstr.key, unstr.body);
    if created.Failure? {
      if created.error != AlreadyExists {
        return Failure(created.error);
      }
      var updated := client.Update(Dynamic, unstr.key, unstr.body, unstr.version);
      if updated.Failure? {
        return Failure(updated.error);
      }
    }
    return Success(());
  }
}

/** One abstract API server: versioned objects, calls that may fail, and other writers that act between calls. */
module ApiServer {
  import opened Wrappers

  datatype Kind = CustomResourceDefinition | Secret | Pod | Job | Service | OtherKind(kind: string)

  datatype Key = Key(kind: Kind, namespace: string, name: string)

  datatype Stored<+B> = Stored(body: B, version: nat)

  /** Failed stands for every error that the callers do not tell apart, lost connections included. */
  datatype ApiError = NotFound | AlreadyExists | Conflict | Failed

  datatype GroupVersion = GroupVersion(group: string, version: string)

  /** The client library a write went through: the typed clientsets or the dynamic client. */
  datatype Client = Typed | Dynamic

  /** What this program's own calls did at the server, in order. */
  datatype Event<+B> =
    | Created(client: Client, key: Key, body: B)
    | Updated(client: Client, key: Key, body: B)
    | Listed(gv: GroupVersion, names: seq<string>)
    | ListFailed(gv: GroupVersion)
    | RBACInstalled
  {
    predicate IsWrite() { Created? || Updated? }
  }

  /** What a Get that was answered has found. */
  datatype Found<+B> = Found(key: Key, body: Option<B>)

  function Bodies<B>(objects: map<Key, Stored<B>>): map<Key, B> {
    map k | k in objects :: objects[k].body
  }

  class Server<B> {
    /** Whether this program is the only writer. */
    const quiet: bool

    var objects: map<Key, Stored<B>>

    /** Versions are handed out in increasing order. */
    var clock: nat

    var log: seq<Event<B>>

    /** How many calls went wrong for no reason of this program's: refused, unanswered, or answered in vain. */
    var faults: nat

    /** How often a client has been built, or an attempt made. */
    var clients: nat

    /** The creations asked for, in order, whether they were carried out or not. */
    ghost var posts: seq<Event<B>>

    /** What the Gets that were answered have found. */
    ghost var answers: seq<Found<B>>

    /** The objects as the latest call found them, after the other writers' turn. */
    ghost var before: map<Key, Stored<B>>

    ghost predicate Valid()
      reads this
    {
      forall k :: k in objects ==> objects[k].version < clock
    }

    constructor (quiet: bool)
      ensures Valid() && this.quiet == quiet && objects == map[] && log == [] && faults == 0 && clients == 0
    {
      this.quiet := quiet;
      objects, clock, log, faults, clients, before := map[], 0, [], 0, 0, map[];
      posts, answers := [], [];
    }

    /** What may have happened between the previous call and this one: an object that still carries an old
        version is unchanged, and nothing at all happened when there is no other writer. */
    twostate predicate Elapsed()
      reads this
    {
      && old(clock) <= clock
      && (quiet ==> before == old(objects))
      && (forall k :: k in before && before[k].version < old(clock) ==>
            k in old(objects) && before[k] == old(objects)[k])
    }

    /** The call wrote body at k and did nothing else. */
    twostate predicate Landed(k: Key, body: B, e: Event<B>)
      reads this
    {
      && clock > old(clock)
      && objects == before[k := Stored(body, clock - 1)]
      && log == old(log) + [e]
    }

    /** The call overwrote the object at k, which still had the given version if one was given. */
    twostate predicate Replaced(client: Client, k: Key, body: B, version: Option<nat>)
      reads this
    {
      && k in before
      && (version.Some? ==> before[k].version == version.value)
      && Landed(k, body, Updated(client, k, body))
    }

    /** The call changed nothing. */
    twostate predicate Missed()
      reads this
    {
      objects == before && log == old(log)
    }

    /** Building a client from a configuration, or any other step before the calls proper that may fail. */
    method Connect() returns (ok: bool)
      modifies `faults, `clients
      ensures clients == old(clients) + 1
      ensures if ok then faults == old(faults) else faults == old(faults) + 1
    {
      ok := *;
      clients := clients + 1;
      if !ok {
        faults := faults + 1;
      }
    }

    /** The other writers' turn: they may replace, create and delete whatever they like. */
    method OthersAct()
      requires Valid()
      modifies `objects, `clock, `before
      ensures Valid() && Elapsed() && objects == before
    {
      if !quiet {
        var writes: map<Key, B> := *;
        var removals: set<Key> := *;
        objects := (objects - removals) + (map k | k in writes :: Stored(writes[k], clock));
        clock := clock + 1;
      }
      before := objects;
    }

    method Put(k: Key, body: B, e: Event<B>)
      requires Valid()
      modifies `objects, `clock, `log
      ensures Valid() && clock == old(clock) + 1
      ensures objects == old(objects)[k := Stored(body, old(clock))] && log == old(log) + [e]
    {
      objects := objects[k := Stored(body, clock)];
      clock := clock + 1;
      log := log + [e];
    }

    method Get(k: Key) returns (r: Result<Stored<B>, ApiError>)
      requires Valid()
      modifies this
      ensures Valid() && Elapsed() && Missed()
      ensures r.Success? ==> k in objects && r.value == objects[k]
      ensures r.Failure? ==> r.error == Failed || (r.error == NotFound && k !in objects)
      ensures if r == Failure(Failed) then faults == old(faults) + 1 else faults == old(faults)
      ensures clients == old(clients) && posts == old(posts)
      ensures answers == old(answers) + match r
                                    case Success(found) => [Found(k, Some(found.body))]
                                    case Failure(NotFound) => [Found(k, None)]
                                    case _ => []
    {
      OthersAct();
      var broken := *;
      if broken {
        faults := faults + 1;
        r := Failure(Failed);
      } else if k in objects {
        r := Success(objects[k]);
        answers := answers + [Found(k, Some(objects[k].body))];
      } else {
        r := Failure(NotFound);
        answers := answers + [Found(k, None)];
      }
    }

    /** A failed call may still have been carried out, its answer lost. */
    method Create(client: Client, k: Key, body: B) returns (r: Result<Stored<B>, ApiError>)
      requires Valid()
      modifies this
      ensures Valid() && Elapsed()
      ensures r.Success? ==> k !in before && Landed(k, body, Created(client, k, body)) && r.value == objects[k]
      ensures r == Failure(AlreadyExists) ==> k in before && Missed()
      ensures r.Failure? ==> r.error == AlreadyExists || r.error == Failed
      ensures r.Failure? ==> Missed() || (k !in before && Landed(k, body, Created(client, k, body)))
      ensures if r == Failure(Failed) then faults == old(faults) + 1 else faults == old(faults)
      ensures clients == old(clients) && posts == old(posts) + [Created(client, k, body)]
    {
      posts := posts + [Created(client, k, body)];
      OthersAct();
      var broken, lost := *, *;
      if broken {
        faults := faults + 1;
        return Failure(Failed);
      }
      if k in objects {
        return Failure(AlreadyExists);
      }
      Put(k, body, Created(client, k, body));
      faults := if lost then faults + 1 else faults;
      r := if lost then Failure(Failed) else Success(objects[k]);
    }

    /** With a version the write is accepted only if the object still has it.  Without one the server may
        accept the write or refuse it, as some resources demand a version. */
    method Update(client: Client, k: Key, body: B, version: Option<nat>) returns (r: Result<Stored<B>, ApiError>)
      requires Valid()
      modifies this
      ensures Valid() && Elapsed()
      ensures r.Success? ==> Replaced(client, k, body, version) && r.value == objects[k]
      ensures r.Failure? ==> Missed() || Replaced(client, k, body, version)
      ensures r == Failure(NotFound) ==> k !in before
      ensures r == Failure(Conflict) ==> version.Some? && k in before && before[k].version != version.value
      ensures r.Failure? ==> r.error != AlreadyExists
      ensures if r == Failure(Failed) then faults == old(faults) + 1 else faults == old(faults)
      ensures clients == old(clients) && posts == old(posts)
    {
      OthersAct();
      var broken, lost := *, *;
      if broken {
        faults := faults + 1;
        return Failure(Failed);
      }
      if k !in objects {
        return Failure(NotFound);
      }
      if version.Some? && objects[k].version != version.value {
        return Failure(Conflict);
      }
      Put(k, body, Updated(client, k, body));
      faults := if lost then faults + 1 else faults;
      r := if lost then Failure(Failed) else Success(objects[k]);
    }

    /** Discovery is free to answer anything at any time. */
    method ServerResourcesForGroupVersion(gv: GroupVersion) returns (r: Option<seq<string>>)
      requires Valid()
      modifies this
      ensures Valid() && Elapsed() && objects == before
      ensures log == old(log) + [if r.Some? then Listed(gv, r.value) else ListFailed(gv)]
      ensures clients == old(clients)
      ensures if r.None? then faults == old(faults) + 1 else faults == old(faults)
    {
      OthersAct();
      r := *;
      faults := if r.None? then faults + 1 else faults;
      log := log + [if r.Some? then Listed(gv, r.value) else ListFailed(gv)];
    }
  }
}

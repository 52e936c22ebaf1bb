/** Waiting until every CRD shows up in discovery (WaitForCRDs and poller.poll in pkg/loader/crd.go). */
module CrdDiscovery {
  import opened Wrappers
  import opened ApiServer
  import opened Lists
  import opened Crds

  type Awaited = map<GroupVersion, set<string>>

  function At(awaited: Awaited, gv: GroupVersion): set<string> {
    if gv in awaited then awaited[gv] else {}
  }

  function ToSet(names: seq<string>): set<string> {
    set n | n in names
  }

  /** The names that the successful fetches of a log returned for a group version. */
  function Seen<B>(log: seq<Event<B>>, gv: GroupVersion): set<string> {
    if log == [] then {}
    else
      var e := log[|log| - 1];
      Seen(log[..|log| - 1], gv) + if e.Listed? && e.gv == gv then ToSet(e.names) else {}
  }

  /** Some fetch for the group version was answered with the name. */
  ghost predicate Observed<B>(log: seq<Event<B>>, gv: GroupVersion, name: string) {
    exists i :: 0 <= i < |log| && log[i].Listed? && log[i].gv == gv && name in log[i].names
  }

  lemma {:induction false} SeenIsObserved<B>(log: seq<Event<B>>, gv: GroupVersion, name: string)
    ensures name in Seen(log, gv) <==> Observed(log, gv, name)
  {
    if log != [] {
      var n := |log| - 1;
      SeenIsObserved(log[..n], gv, name);
      assert forall i :: 0 <= i < n ==> log[..n][i] == log[i];
      if Observed(log, gv, name) && !Observed(log[..n], gv, name) {
        var i :| 0 <= i < |log| && log[i].Listed? && log[i].gv == gv && name in log[i].names;
        assert i == n;
      }
    }
  }

  /** What is still missing after the fetches of a log. */
  function Outstanding<B>(awaited: Awaited, log: seq<Event<B>>, gv: GroupVersion): set<string> {
    At(awaited, gv) - Seen(log, gv)
  }

  ghost predicate NothingOutstanding<B>(awaited: Awaited, log: seq<Event<B>>) {
    forall gv :: Outstanding(awaited, log, gv) == {}
  }

  /** Only discovery was used, and only for group versions that still missed something at that moment. */
  ghost predicate FetchesNeeded<B>(awaited: Awaited, log: seq<Event<B>>) {
    forall i :: 0 <= i < |log| ==>
      (log[i].Listed? || log[i].ListFailed?) && Outstanding(awaited, log[..i], log[i].gv) != {}
  }

  /** The fetch succeeded and listed all that is awaited for its group version. */
  predicate IsFull<B>(awaited: Awaited, e: Event<B>) {
    e.Listed? && At(awaited, e.gv) <= ToSet(e.names)
  }

  ghost predicate FullAnswers<B>(awaited: Awaited, log: seq<Event<B>>) {
    forall i :: 0 <= i < |log| ==> IsFull(awaited, log[i])
  }

  /** How many fetches of the log were not answered in full. */
  function Shortfalls<B>(awaited: Awaited, log: seq<Event<B>>): nat {
    if log == [] then 0
    else Shortfalls(awaited, log[..|log| - 1]) + if IsFull(awaited, log[|log| - 1]) then 0 else 1
  }

  lemma {:induction false} NoShortfallsIsFull<B>(awaited: Awaited, log: seq<Event<B>>)
    ensures Shortfalls(awaited, log) == 0 <==> FullAnswers(awaited, log)
  {
    if log != [] {
      var n := |log| - 1;
      NoShortfallsIsFull(awaited, log[..n]);
      assert FullAnswers(awaited, log) <==> FullAnswers(awaited, log[..n]) && IsFull(awaited, log[n]);
    }
  }

  /** What falls short of the smaller demand falls short of the larger one. */
  lemma {:induction false} ShortfallsOfConcatenation<B>(required: Awaited, current: Awaited, a: seq<Event<B>>,
                                                        b: seq<Event<B>>)
    requires forall gv :: At(current, gv) <= At(required, gv)
    ensures Shortfalls(required, a + b) >= Shortfalls(required, a) + Shortfalls(current, b)
  {
    if b == [] {
      assert a + b == a;
    } else {
      var n := |b| - 1;
      assert (a + b)[..|a + b| - 1] == a + b[..n];
      ShortfallsOfConcatenation(required, current, a, b[..n]);
      assert IsFull(required, b[n]) ==> IsFull(current, b[n]);
    }
  }

  lemma {:induction false} SeenOfConcatenation<B>(a: seq<Event<B>>, b: seq<Event<B>>, gv: GroupVersion)
    ensures Seen(a + b, gv) == Seen(a, gv) + Seen(b, gv)
  {
    if b == [] {
      assert a + b == a;
    } else {
      assert (a + b)[..|a + b| - 1] == a + b[..|b| - 1];
      SeenOfConcatenation(a, b[..|b| - 1], gv);
    }
  }

  /** The group versions a log fetched. */
  function Asked<B>(log: seq<Event<B>>): set<GroupVersion> {
    if log == [] then {}
    else
      var e := log[|log| - 1];
      Asked(log[..|log| - 1]) + if e.Listed? || e.ListFailed? then {e.gv} else {}
  }

  lemma {:induction false} NotAskedNotSeen<B>(log: seq<Event<B>>, gv: GroupVersion)
    requires gv !in Asked(log)
    ensures Seen(log, gv) == {}
  {
    if log != [] {
      NotAskedNotSeen(log[..|log| - 1], gv);
    }
  }

  lemma {:induction false} FullAnswersSuffice<B>(awaited: Awaited, log: seq<Event<B>>, gv: GroupVersion)
    requires FullAnswers(awaited, log) && gv in Asked(log)
    ensures Outstanding(awaited, log, gv) == {}
  {
    var e := log[|log| - 1];
    assert IsFull(awaited, e);
    if e.gv != gv {
      FullAnswersSuffice(awaited, log[..|log| - 1], gv);
    }
  }

  // One pass of the poller over its map.

  /** A pass has dealt with all keys but todo: `left` is what it has left in the sets. */
  ghost predicate Pass<B>(awaited: Awaited, left: Awaited, fetches: seq<Event<B>>, todo: set<GroupVersion>) {
    && left.Keys == awaited.Keys
    && todo <= awaited.Keys
    && todo !! Asked(fetches)
    && (forall gv :: gv in awaited ==> left[gv] == Outstanding(awaited, fetches, gv))
    && (forall gv :: gv in awaited && gv !in todo && gv !in Asked(fetches) ==> awaited[gv] == {})
  }

  ghost predicate AllEmpty(left: Awaited, todo: set<GroupVersion>) {
    forall gv :: gv in left && gv !in todo ==> left[gv] == {}
  }

  lemma PassSkips<B>(awaited: Awaited, left: Awaited, fetches: seq<Event<B>>, todo: set<GroupVersion>, gv: GroupVersion)
    requires Pass(awaited, left, fetches, todo) && gv in todo && left[gv] == {}
    ensures Pass(awaited, left, fetches, todo - {gv})
    ensures AllEmpty(left, todo - {gv}) <==> AllEmpty(left, todo)
  {
    NotAskedNotSeen(fetches, gv);
  }

  lemma NeedStillHolds<B>(awaited: Awaited, fetches: seq<Event<B>>, e: Event<B>)
    requires FetchesNeeded(awaited, fetches)
    requires (e.Listed? || e.ListFailed?) && Outstanding(awaited, fetches, e.gv) != {}
    ensures FetchesNeeded(awaited, fetches + [e])
  {
    var log := fetches + [e];
    forall i | 0 <= i < |log|
      ensures (log[i].Listed? || log[i].ListFailed?) && Outstanding(awaited, log[..i], log[i].gv) != {}
    {
      assert i < |fetches| ==> log[..i] == fetches[..i];
      assert log[..|fetches|] == fetches;
    }
  }

  lemma PassFetches<B>(awaited: Awaited, left: Awaited, fetches: seq<Event<B>>, todo: set<GroupVersion>,
                       gv: GroupVersion, names: seq<string>)
    requires Pass(awaited, left, fetches, todo) && gv in todo && left[gv] != {}
    ensures Pass(awaited, left[gv := left[gv] - ToSet(names)], fetches + [Listed(gv, names)], todo - {gv})
  {
    var log, after := fetches + [Listed(gv, names)], left[gv := left[gv] - ToSet(names)];
    AskedOneMore(fetches, gv, names);
    forall g | g in awaited ensures after[g] == Outstanding(awaited, log, g) {
      SeenOneMore(fetches, gv, names, g);
    }
  }

  lemma AskedOneMore<B>(log: seq<Event<B>>, gv: GroupVersion, names: seq<string>)
    ensures Asked(log + [Listed(gv, names)]) == Asked(log) + {gv}
  {
    assert (log + [Listed(gv, names)])[..|log|] == log;
  }

  lemma SeenOneMore<B>(log: seq<Event<B>>, gv: GroupVersion, names: seq<string>, g: GroupVersion)
    ensures Seen(log + [Listed(gv, names)], g) == Seen(log, g) + if g == gv then ToSet(names) else {}
  {
    assert (log + [Listed(gv, names)])[..|log|] == log;
  }

  /** What happened to one key of the map during a pass. */
  datatype Step = Empty | NoAnswer | Answer(names: seq<string>, complete: bool)

  /** What a step leaves in the log, and in the sets. */
  function EventsOf<B>(gv: GroupVersion, step: Step): seq<Event<B>> {
    match step
    case Empty => []
    case NoAnswer => [ListFailed(gv)]
    case Answer(names, _) => [Listed(gv, names)]
  }

  function LeftAfter(left: Awaited, gv: GroupVersion, step: Step): Awaited
    requires gv in left
  {
    if step.Answer? then left[gv := left[gv] - ToSet(step.names)] else left
  }

  /** An incomplete answer clears the flag. */
  predicate FoundAfter(allFound: bool, step: Step) {
    allFound && (step.Answer? ==> step.complete)
  }

  /** An empty set is passed over, and an answer is complete when it leaves none. */
  predicate Fits(left: Awaited, gv: GroupVersion, step: Step)
    requires gv in left
  {
    && (step.Empty? <==> left[gv] == {})
    && (step.Answer? ==> (step.complete <==> left[gv] - ToSet(step.names) == {}))
  }

  /** What the loop of a pass keeps: only needed fetches so far, and the flag says whether all sets done with are
      empty. */
  ghost predicate Underway<B>(awaited: Awaited, left: Awaited, fetches: seq<Event<B>>, todo: set<GroupVersion>,
                              allFound: bool)
  {
    && FetchesNeeded(awaited, fetches)
    && Pass(awaited, left, fetches, todo)
    && (allFound <==> AllEmpty(left, todo))
  }

  lemma PassStarts<B>(awaited: Awaited)
    ensures Underway<B>(awaited, awaited, [], awaited.Keys, true)
  {
  }

  /** What a poll promises of its fetches, of what it leaves, and of its answer. */
  ghost predicate Polled<B>(awaited: Awaited, left: Awaited, fetches: seq<Event<B>>, done: bool) {
    && FetchesNeeded(awaited, fetches)
    && (forall gv :: At(left, gv) == Outstanding(awaited, fetches, gv))
    && (done <==> NothingOutstanding(awaited, fetches))
    && (FullAnswers(awaited, fetches) ==> done)
  }

  /** After a step the pass goes on with one key less, or is over because there was no answer. */
  lemma AfterVisit<B>(awaited: Awaited, left: Awaited, fetches: seq<Event<B>>, todo: set<GroupVersion>, allFound: bool,
                      gv: GroupVersion, step: Step)
    requires Underway(awaited, left, fetches, todo, allFound) && gv in todo && Fits(left, gv, step)
    ensures var log := fetches + EventsOf(gv, step);
            if step.NoAnswer? then Polled(awaited, LeftAfter(left, gv, step), log, false)
            else Underway(awaited, LeftAfter(left, gv, step), log, todo - {gv}, FoundAfter(allFound, step))
  {
    match step {
      case Empty =>
        assert fetches + [] == fetches;
        PassSkips(awaited, left, fetches, todo, gv);
      case NoAnswer =>
        PassBreaksOff(awaited, left, fetches, todo, gv);
        NeedStillHolds(awaited, fetches, ListFailed(gv));
      case Answer(names, complete) =>
        PassFetches(awaited, left, fetches, todo, gv, names);
        EmptyAfterFetch(left, todo, gv, left[gv] - ToSet(names));
        NeedStillHolds(awaited, fetches, Listed(gv, names));
    }
  }

  lemma AfterAll<B>(awaited: Awaited, left: Awaited, fetches: seq<Event<B>>, allFound: bool)
    requires Underway(awaited, left, fetches, {}, allFound)
    ensures Polled(awaited, left, fetches, allFound)
  {
    PassEnds(awaited, left, fetches);
  }

  lemma EmptyAfterFetch(left: Awaited, todo: set<GroupVersion>, gv: GroupVersion, now: set<string>)
    requires gv in todo && gv in left
    ensures AllEmpty(left[gv := now], todo - {gv}) <==> AllEmpty(left, todo) && now == {}
  {
    var after := left[gv := now];
    if AllEmpty(after, todo - {gv}) {
      assert after[gv] == {};
      forall g | g in left && g !in todo ensures left[g] == {} {
        assert after[g] == left[g];
      }
    }
  }

  lemma PassBreaksOff<B>(awaited: Awaited, left: Awaited, fetches: seq<Event<B>>, todo: set<GroupVersion>,
                         gv: GroupVersion)
    requires Pass(awaited, left, fetches, todo) && gv in todo && left[gv] != {}
    ensures var log := fetches + [ListFailed(gv)];
            && (forall g :: At(left, g) == Outstanding(awaited, log, g))
            && !NothingOutstanding(awaited, log)
            && !FullAnswers(awaited, log)
  {
    var log := fetches + [ListFailed(gv)];
    assert log[..|log| - 1] == fetches;
    assert log[|fetches|] == ListFailed(gv);
    assert Outstanding(awaited, log, gv) != {};
  }

  lemma PassEnds<B>(awaited: Awaited, left: Awaited, fetches: seq<Event<B>>)
    requires Pass(awaited, left, fetches, {})
    ensures forall gv :: At(left, gv) == Outstanding(awaited, fetches, gv)
    ensures NothingOutstanding(awaited, fetches) <==> AllEmpty(left, {})
    ensures FullAnswers(awaited, fetches) ==> NothingOutstanding(awaited, fetches)
  {
    assert forall gv :: gv in left ==> left[gv] == Outstanding(awaited, fetches, gv);
    assert forall gv :: gv !in left ==> Outstanding(awaited, fetches, gv) == {};
    if FullAnswers(awaited, fetches) {
      forall gv ensures Outstanding(awaited, fetches, gv) == {} {
        if gv in Asked(fetches) {
          FullAnswersSuffice(awaited, fetches, gv);
        }
      }
    }
  }

  /** All that is still missing, as pairs. */
  ghost function OutstandingPairs<B>(awaited: Awaited, log: seq<Event<B>>): set<(GroupVersion, string)> {
    set gv, n | gv in awaited && n in Outstanding(awaited, log, gv) :: (gv, n)
  }

  /** Nothing that was found is ever missed again, and the amount still missing falls exactly when a fetch
      returns an awaited name. */
  lemma Progress<B>(awaited: Awaited, log: seq<Event<B>>, e: Event<B>)
    ensures OutstandingPairs(awaited, log + [e]) <= OutstandingPairs(awaited, log)
    ensures |OutstandingPairs(awaited, log + [e])| <= |OutstandingPairs(awaited, log)|
    ensures |OutstandingPairs(awaited, log + [e])| < |OutstandingPairs(awaited, log)|
       <==> e.Listed? && exists n :: n in e.names && n in Outstanding(awaited, log, e.gv)
  {
    var before, after := OutstandingPairs(awaited, log), OutstandingPairs(awaited, log + [e]);
    assert (log + [e])[..|log|] == log;
    SubsetSize(after, before);
    if e.Listed? {
      if n :| n in e.names && n in Outstanding(awaited, log, e.gv) {
        assert (e.gv, n) in before && (e.gv, n) !in after;
      } else {
        forall p | p in before ensures p in after {
          assert p.1 in Outstanding(awaited, log, p.0);
        }
      }
    } else {
      assert after == before;
    }
  }

  lemma {:induction false} SubsetSize<T>(a: set<T>, b: set<T>)
    requires a <= b
    ensures |a| <= |b| && (|a| == |b| <==> a == b)
  {
    if a != {} {
      var x :| x in a;
      SubsetSize(a - {x}, b - {x});
      assert a - {x} == b - {x} ==> a == b;
    }
  }

  /** The names that discovery lists for a group version, or None if it does not answer. */
  method Fetch<B>(cli: Server<B>, gv: GroupVersion) returns (r: Option<seq<string>>)
    requires cli.Valid()
    modifies cli
    ensures cli.Valid() && (cli.quiet ==> cli.objects == old(cli.objects))
    ensures cli.log == old(cli.log) + [if r.Some? then Listed(gv, r.value) else ListFailed(gv)]
    ensures cli.faults >= old(cli.faults) && cli.clients == old(cli.clients)
  {
    r := cli.ServerResourcesForGroupVersion(gv);
  }

  class StringSet {
    var elems: set<string>

    constructor ()
      ensures elems == {}
    {
      elems := {};
    }
  }

  /** Different keys own different sets. */
  ghost predicate OwnSets(waitingFor: map<GroupVersion, StringSet>) {
    forall a, b :: a in waitingFor && b in waitingFor && waitingFor[a] == waitingFor[b] ==> a == b
  }

  ghost function ContentsOf(waitingFor: map<GroupVersion, StringSet>): Awaited
    reads waitingFor.Values
  {
    map gv | gv in waitingFor :: waitingFor[gv].elems
  }

  class Poller {
    /** Group versions with the resource names not yet found. */
    var waitingFor: map<GroupVersion, StringSet>

    ghost predicate Valid()
      reads this
    {
      OwnSets(waitingFor)
    }

    ghost function Current(): Awaited
      reads this, waitingFor.Values
    {
      ContentsOf(waitingFor)
    }

    /** The sets hold what `left` says; a deleted key counts as an empty set. */
    ghost predicate Holds(left: Awaited)
      reads this, waitingFor.Values
    {
      && (forall gv :: gv in waitingFor ==> gv in left && waitingFor[gv].elems == left[gv])
      && (forall gv :: gv in left && gv !in waitingFor ==> left[gv] == {})
    }

    constructor (waitingFor: map<GroupVersion, StringSet>)
      ensures this.waitingFor == waitingFor
    {
      this.waitingFor := waitingFor;
    }

    /** One pass over the map, in an arbitrary order, that stops at the first failing fetch.  An empty set's key is
        deleted on the way.  None is a failure to build the client. */
    method Poll<B>(cli: Server<B>) returns (done: Option<bool>, ghost fetches: seq<Event<B>>)
      requires Valid() && cli.Valid()
      modifies this, waitingFor.Values, cli
      ensures Valid() && cli.Valid()
      ensures waitingFor.Values <= old(waitingFor.Values)
      ensures cli.log == old(cli.log) + fetches
      ensures done.Some? ==> Polled(old(Current()), Current(), fetches, done.value)
      ensures done.None? ==> fetches == [] && Current() == old(Current())
      ensures cli.quiet ==> cli.objects == old(cli.objects)
      ensures cli.clients == old(cli.clients) + 1
      ensures cli.faults >= old(cli.faults) && (done.None? ==> cli.faults > old(cli.faults))
    {
      fetches := [];
      var connected := cli.Connect();
      if !connected {
        return None, [];
      }
      ghost var awaited := old(Current());
      ghost var left := awaited;
      var allFound := true;
      var todo := waitingFor.Keys;
      PassStarts<B>(awaited);
      while todo != {}
        invariant Valid() && cli.Valid() && cli.faults >= old(cli.faults) && cli.clients == old(cli.clients) + 1
        invariant todo <= waitingFor.Keys
        invariant waitingFor.Values <= old(waitingFor.Values)
        invariant cli.log == old(cli.log) + fetches
        invariant cli.quiet ==> cli.objects == old(cli.objects)
        invariant Holds(left) && Underway(awaited, left, fetches, todo, allFound)
        decreases todo
      {
        var gv :| gv in todo;
        assert todo - {gv} < todo;
        var step := Visit(cli, gv, left);
        AfterVisit(awaited, left, fetches, todo, allFound, gv, step);
        Associate(old(cli.log), fetches, EventsOf(gv, step));
        left, fetches := LeftAfter(left, gv, step), fetches + EventsOf(gv, step);
        if step.NoAnswer? {
          PolledIsCurrent(awaited, left, fetches, false);
          return Some(false), fetches;
        }
        allFound := FoundAfter(allFound, step);
        todo := todo - {gv};
      }
      AfterAll(awaited, left, fetches, allFound);
      PolledIsCurrent(awaited, left, fetches, allFound);
      return Some(allFound), fetches;
    }

    lemma PolledIsCurrent<B>(awaited: Awaited, left: Awaited, fetches: seq<Event<B>>, done: bool)
      requires Holds(left) && Polled(awaited, left, fetches, done)
      ensures Polled(awaited, Current(), fetches, done)
    {
      forall gv ensures At(Current(), gv) == Outstanding(awaited, fetches, gv) {
        assert At(Current(), gv) == At(left, gv);
      }
    }

    /** The body of poll's loop for one key. */
    method Visit<B>(cli: Server<B>, gv: GroupVersion, ghost left: Awaited) returns (step: Step)
      requires Valid() && cli.Valid() && Holds(left) && gv in waitingFor
      modifies this, waitingFor[gv], cli
      ensures Valid() && cli.Valid() && (cli.quiet ==> cli.objects == old(cli.objects)) && cli.faults >= old(cli.faults)
      ensures cli.clients == old(cli.clients)
      ensures waitingFor == if step.Empty? then old(waitingFor) - {gv} else old(waitingFor)
      ensures waitingFor.Keys >= old(waitingFor.Keys) - {gv} && waitingFor.Values <= old(waitingFor.Values)
      ensures Fits(left, gv, step) && Holds(LeftAfter(left, gv, step)) && cli.log == old(cli.log) + EventsOf(gv, step)
    {
      var resources := waitingFor[gv];
      if resources.elems == {} {
        waitingFor := waitingFor - {gv};
        return Empty;
      }
      var resourceList := Fetch(cli, gv);
      if resourceList.None? {
        return NoAnswer;
      }
      resources.elems := resources.elems - ToSet(resourceList.value);
      return Answer(resourceList.value, resources.elems == {});
    }
  }

  // The whole wait.

  /** The plurals to wait for, by group version. */
  function Required(crds: CrdsSet): Awaited {
    var gvs := set k | k in crds :: GroupVersionOf(crds[k]);
    map gv | gv in gvs :: set k | k in crds && GroupVersionOf(crds[k]) == gv :: crds[k].shape.plural
  }

  lemma RequiredOneMore(crds: CrdsSet, k: string)
    requires k in crds
    ensures var gv := GroupVersionOf(crds[k]);
            Required(crds) == Required(crds - {k})[gv := At(Required(crds - {k}), gv) + {crds[k].shape.plural}]
  {
    var rest := crds - {k};
    var gv := GroupVersionOf(crds[k]);
    var r := Required(rest)[gv := At(Required(rest), gv) + {crds[k].shape.plural}];
    forall g ensures At(Required(crds), g) == At(r, g) && (g in Required(crds) <==> g in r) {
      forall n ensures n in At(Required(crds), g) <==> n in At(r, g) {
        if n in At(Required(crds), g) {
          var j :| j in crds && GroupVersionOf(crds[j]) == g && crds[j].shape.plural == n;
          assert j != k ==> j in rest;
        }
      }
      if g in Required(crds) {
        var j :| j in crds && GroupVersionOf(crds[j]) == g;
        assert j != k ==> j in rest;
      }
    }
  }

  lemma RequiredOfOneMore(crds: CrdsSet, todo: set<string>, k: string)
    requires k in todo && todo <= crds.Keys
    ensures var gv := GroupVersionOf(crds[k]);
            var sofar := Required(crds - todo);
            Required(crds - (todo - {k})) == sofar[gv := At(sofar, gv) + {crds[k].shape.plural}]
  {
    var done := crds - (todo - {k});
    assert done - {k} == crds - todo;
    RequiredOneMore(done, k);
  }

  /** What is required under a group version are the plurals of the CRDs with that group and version. */
  lemma RequiredExactly(crds: CrdsSet, gv: GroupVersion, name: string)
    ensures name in At(Required(crds), gv)
       <==> exists k :: k in crds && Defines(crds[k], gv.group, gv.version, name)
  {
  }

  predicate Defines(crd: Crd, group: string, version: string, plural: string) {
    crd.shape.group == group && crd.shape.version == version && crd.shape.plural == plural
  }

  /** Discovery has listed every CRD's plural under the CRD's own group and version. */
  ghost predicate AllObserved<B>(crds: CrdsSet, log: seq<Event<B>>) {
    forall k :: k in crds ==>
      Observed(log, GroupVersion(crds[k].shape.group, crds[k].shape.version), crds[k].shape.plural)
  }

  /** Having nothing outstanding means just that. */
  lemma NothingOutstandingMeansObserved<B>(crds: CrdsSet, log: seq<Event<B>>)
    ensures NothingOutstanding(Required(crds), log) <==> AllObserved(crds, log)
  {
    NothingOutstandingMeansSeen(crds, log);
    forall k | k in crds
      ensures crds[k].shape.plural in Seen(log, GroupVersionOf(crds[k])) <==>
              Observed(log, GroupVersion(crds[k].shape.group, crds[k].shape.version), crds[k].shape.plural)
    {
      SeenIsObserved(log, GroupVersionOf(crds[k]), crds[k].shape.plural);
    }
  }

  lemma ObservedStays<B>(crds: CrdsSet, log: seq<Event<B>>, more: seq<Event<B>>)
    requires AllObserved(crds, log)
    ensures AllObserved(crds, log + more)
  {
    assert forall i :: 0 <= i < |log| ==> (log + more)[i] == log[i];
  }

  lemma NothingOutstandingMeansSeen<B>(crds: CrdsSet, log: seq<Event<B>>)
    ensures NothingOutstanding(Required(crds), log)
       <==> forall k :: k in crds ==> crds[k].shape.plural in Seen(log, GroupVersionOf(crds[k]))
  {
    if NothingOutstanding(Required(crds), log) {
      forall k | k in crds ensures crds[k].shape.plural in Seen(log, GroupVersionOf(crds[k])) {
        var gv := GroupVersionOf(crds[k]);
        var plural := crds[k].shape.plural;
        assert gv in Required(crds) && plural in At(Required(crds), gv);
        assert plural !in Outstanding(Required(crds), log, gv);
      }
    }
  }

  lemma PollsChain<B>(required: Awaited, earlier: seq<Event<B>>, current: Awaited, fetches: seq<Event<B>>)
    requires FetchesNeeded(required, earlier) && FetchesNeeded(current, fetches)
    requires forall gv :: At(current, gv) == Outstanding(required, earlier, gv)
    ensures FetchesNeeded(required, earlier + fetches)
    ensures forall gv :: Outstanding(current, fetches, gv) == Outstanding(required, earlier + fetches, gv)
    ensures NothingOutstanding(current, fetches) <==> NothingOutstanding(required, earlier + fetches)
  {
    var all := earlier + fetches;
    forall n: nat, gv | n <= |fetches|
      ensures Outstanding(current, fetches[..n], gv) == Outstanding(required, earlier + fetches[..n], gv)
    {
      SeenOfConcatenation(earlier, fetches[..n], gv);
    }
    assert fetches[..|fetches|] == fetches;
    forall i | 0 <= i < |all|
      ensures (all[i].Listed? || all[i].ListFailed?) && Outstanding(required, all[..i], all[i].gv) != {}
    {
      if i < |earlier| {
        assert all[..i] == earlier[..i];
      } else {
        assert all[..i] == earlier + fetches[..i - |earlier|];
      }
    }
  }

  /** A poll that leaves something outstanding has been answered short at least once. */
  lemma OneMoreShortfall<B>(required: Awaited, earlier: seq<Event<B>>, current: Awaited, fetches: seq<Event<B>>)
    requires forall gv :: At(current, gv) == Outstanding(required, earlier, gv)
    requires !FullAnswers(current, fetches)
    ensures Shortfalls(required, earlier + fetches) >= Shortfalls(required, earlier) + 1
  {
    NoShortfallsIsFull(current, fetches);
    forall gv ensures At(current, gv) <= At(required, gv) {
      assert At(current, gv) == Outstanding(required, earlier, gv);
    }
    ShortfallsOfConcatenation(required, current, earlier, fetches);
  }

  /** Adds a name under a group version, with a new set if it is the first one. */
  method Insert(sets: map<GroupVersion, StringSet>, gv: GroupVersion, name: string)
    returns (r: map<GroupVersion, StringSet>)
    requires OwnSets(sets)
    modifies sets.Values
    ensures OwnSets(r) && r.Keys == sets.Keys + {gv}
    ensures forall g :: g in sets ==> r[g] == sets[g]
    ensures gv !in sets ==> fresh(r[gv])
    ensures ContentsOf(r) == old(ContentsOf(sets))[gv := At(old(ContentsOf(sets)), gv) + {name}]
  {
    r := sets;
    if gv !in r {
      var s := new StringSet();
      r := r[gv := s];
    }
    r[gv].elems := r[gv].elems + {name};
  }

  /** The first half of WaitForCRDs: one fresh set of plurals per group version, built in an arbitrary order. */
  method GroupCRDs(crds: CrdsSet) returns (waitingFor: map<GroupVersion, StringSet>)
    ensures OwnSets(waitingFor) && forall gv :: gv in waitingFor ==> fresh(waitingFor[gv])
    ensures ContentsOf(waitingFor) == Required(crds)
  {
    waitingFor := map[];
    ghost var wanted := Required(map[]);
    assert crds - crds.Keys == map[];
    var todo := crds.Keys;
    while todo != {}
      invariant todo <= crds.Keys
      invariant OwnSets(waitingFor) && forall gv :: gv in waitingFor ==> fresh(waitingFor[gv])
      invariant ContentsOf(waitingFor) == wanted
      invariant wanted == Required(crds - todo)
      decreases todo
    {
      var k :| k in todo;
      var gv, plural := GroupVersionOf(crds[k]), crds[k].shape.plural;
      RequiredOfOneMore(crds, todo, k);
      ghost var earlier := waitingFor;
      waitingFor := Insert(waitingFor, gv, plural);
      assert forall g :: g in waitingFor ==> if g in earlier then waitingFor[g] == earlier[g] else fresh(waitingFor[g]);
      wanted := wanted[gv := At(wanted, gv) + {plural}];
      todo := todo - {k};
    }
    assert crds - {} == crds;
  }

  datatype WaitError = NoClient | TimedOut

  /** Polls at once and then once per tick, until a poll is done or cannot build its client, or no tick is left. */
  method WaitForCRDs<B>(cli: Server<B>, crds: CrdsSet, ticks: nat)
    returns (r: Result<(), WaitError>, ghost fetches: seq<Event<B>>)
    requires cli.Valid()
    modifies cli
    ensures cli.Valid() && (cli.quiet ==> cli.objects == old(cli.objects))
    ensures cli.log == old(cli.log) + fetches
    ensures FetchesNeeded(Required(crds), fetches)
    ensures r.Success? ==> AllObserved(crds, fetches)
    ensures r == Failure(TimedOut) ==> !AllObserved(crds, fetches)
    // Every poll that did not succeed had an answer that fell short.
    ensures r == Failure(TimedOut) ==> Shortfalls(Required(crds), fetches) >= ticks + 1
    ensures r == Failure(TimedOut) ==> !FullAnswers(Required(crds), fetches)
    // Each poll builds its own client: there is one poll at least, and one more per tick before giving up.
    ensures old(cli.clients) < cli.clients <= old(cli.clients) + ticks + 1
    ensures r == Failure(TimedOut) ==> cli.clients == old(cli.clients) + ticks + 1
    ensures cli.faults >= old(cli.faults) && (r == Failure(NoClient) ==> cli.faults > old(cli.faults))
  {
    var waitingFor := GroupCRDs(crds);
    var p := new Poller(waitingFor);
    fetches := [];
    for i := 0 to ticks + 1
      invariant fresh(p) && fresh(p.waitingFor.Values)
      invariant p.Valid() && cli.Valid() && cli.faults >= old(cli.faults)
      invariant cli.quiet ==> cli.objects == old(cli.objects)
      invariant cli.log == old(cli.log) + fetches
      invariant FetchesNeeded(Required(crds), fetches)
      invariant forall gv :: At(p.Current(), gv) == Outstanding(Required(crds), fetches, gv)
      invariant cli.clients == old(cli.clients) + i
      invariant i == 0 ==> fetches == []
      invariant i > 0 ==> !NothingOutstanding(Required(crds), fetches)
      invariant Shortfalls(Required(crds), fetches) >= i
    {
      ghost var current := p.Current();
      var done;
      ghost var more;
      done, more := p.Poll(cli);
      PollsChain(Required(crds), fetches, current, more);
      Associate(old(cli.log), fetches, more);
      ghost var earlier := fetches;
      fetches := fetches + more;
      if done.None? {
        return Failure(NoClient), fetches;
      }
      if done.value {
        NothingOutstandingMeansObserved(crds, fetches);
        return Success(()), fetches;
      }
      OneMoreShortfall(Required(crds), earlier, current, more);
    }
    NoShortfallsIsFull(Required(crds), fetches);
    NothingOutstandingMeansObserved(crds, fetches);
    return Failure(TimedOut), fetches;
  }
}

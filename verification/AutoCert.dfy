/** The automatically signed certificate of a service and its local copy (pkg/crypto/service_cert.go). */
module AutoCerts {
  import opened Wrappers
  import opened Names
  import opened CsrProtocol

  // Other parties' turns in a run.

  function ActAll(w: World, acts: seq<Action>): World {
    if acts == [] then w else Act(ActAll(w, acts[..|acts| - 1]), acts[|acts| - 1])
  }

  function Others(acts: seq<Action>): seq<Label> {
    seq(|acts|, i requires 0 <= i < |acts| => Other(acts[i]))
  }

  lemma {:induction false} RunOthers(job: Job, w: World, labels: seq<Label>, acts: seq<Action>)
    ensures Run(job, w, labels + Others(acts)) == Run(job, w, labels).(w := ActAll(Run(job, w, labels).w, acts))
  {
    if acts == [] {
      assert labels + Others(acts) == labels;
    } else {
      var n := |acts| - 1;
      RunOthers(job, w, labels, acts[..n]);
      assert labels + Others(acts) == labels + Others(acts[..n]) + [Other(acts[n])];
      OneMore(job, w, labels + Others(acts[..n]), Other(acts[n]));
    }
  }

  function Turn(labels: seq<Label>, acts: seq<Action>, f: Fault): seq<Label> {
    labels + Others(acts) + [Call(f)]
  }

  lemma TurnAfter(before: seq<Label>, labels: seq<Label>, acts: seq<Action>, f: Fault)
    ensures Turn(before + labels, acts, f) == before + Turn(labels, acts, f)
  {
  }

  lemma RunTurn(job: Job, w: World, labels: seq<Label>, acts: seq<Action>, f: Fault)
    ensures Run(job, w, Turn(labels, acts, f)) ==
              ClientStep(job, Run(job, w, labels).(w := ActAll(Run(job, w, labels).w, acts)), f, |labels| + |acts|)
  {
    RunOthers(job, w, labels, acts);
    OneMore(job, w, labels + Others(acts), Call(f));
  }

  /** How many calls the client has made. */
  function Calls(labels: seq<Label>): nat {
    if labels == [] then 0 else Calls(labels[..|labels| - 1]) + if labels[|labels| - 1].Call? then 1 else 0
  }

  lemma {:induction false} CallsOfConcatenation(a: seq<Label>, b: seq<Label>)
    ensures Calls(a + b) == Calls(a) + Calls(b)
  {
    if b == [] {
      assert a + b == a;
    } else {
      assert (a + b)[..|a + b| - 1] == a + b[..|b| - 1];
      CallsOfConcatenation(a, b[..|b| - 1]);
    }
  }

  lemma {:induction false} CallsOfTurn(labels: seq<Label>, acts: seq<Action>, f: Fault)
    ensures Calls(Turn(labels, acts, f)) == Calls(labels) + 1
  {
    assert Turn(labels, acts, f)[..|labels| + |acts|] == labels + Others(acts);
    CallsOfConcatenation(labels, Others(acts));
    NoCallsOfOthers(acts);
  }

  lemma {:induction false} NoCallsOfOthers(acts: seq<Action>)
    ensures Calls(Others(acts)) == 0
  {
    if acts != [] {
      var n := |acts| - 1;
      assert Others(acts)[..n] == Others(acts[..n]);
      NoCallsOfOthers(acts[..n]);
    }
  }

  /** The cluster as the client sees it: other parties act before each call, and each call may fail. */
  class Cluster {
    var w: World

    /** Everything that has happened, in order. */
    ghost var trace: seq<Label>

    /** What a failing Get of a Secret returns beside its error. */
    const failedGet: Option<Secret>

    constructor (w: World, failedGet: Option<Secret>)
      ensures this.w == w && this.failedGet == failedGet && trace == []
    {
      this.w, this.failedGet, trace := w, failedGet, [];
    }

    method OthersAct() returns (ghost acts: seq<Action>)
      modifies this
      ensures w == ActAll(old(w), acts) && trace == old(trace) + Others(acts)
    {
      var turns: seq<Action> := *;
      for i := 0 to |turns|
        invariant w == ActAll(old(w), turns[..i]) && trace == old(trace)
      {
        assert turns[..i + 1][..i] == turns[..i];
        w := Act(w, turns[i]);
      }
      assert turns[..|turns|] == turns;
      acts := turns;
      trace := trace + Others(acts);
    }

    method CreateCsr(name: string, request: KeyId)
      returns (r: Result<Csr, CallError>, ghost acts: seq<Action>, ghost f: Fault)
      modifies this
      ensures (w, r) == CallCreateCsr(ActAll(old(w), acts), name, request, f)
      ensures trace == Turn(old(trace), acts, f)
    {
      acts := OthersAct();
      var fault: Fault := *;
      f := fault;
      trace := trace + [Call(f)];
      var t := CallCreateCsr(w, name, request, fault);
      w, r := t.0, t.1;
    }

    method GetCsr(name: string) returns (r: Result<Csr, CallError>, ghost acts: seq<Action>, ghost f: Fault)
      modifies this
      ensures w == ActAll(old(w), acts) && r == CallGetCsr(w, name, f)
      ensures trace == Turn(old(trace), acts, f)
    {
      acts := OthersAct();
      var fault: Fault := *;
      f := fault;
      trace := trace + [Call(f)];
      r := CallGetCsr(w, name, fault);
    }

    method UpdateApproval(name: string, draft: Csr)
      returns (r: Result<(), CallError>, ghost acts: seq<Action>, ghost f: Fault)
      modifies this
      ensures (w, r) == CallUpdateApproval(ActAll(old(w), acts), name, draft, f)
      ensures trace == Turn(old(trace), acts, f)
    {
      acts := OthersAct();
      var fault: Fault := *;
      f := fault;
      trace := trace + [Call(f)];
      var t := CallUpdateApproval(w, name, draft, fault);
      w, r := t.0, t.1;
    }

    method DeleteCsr(name: string) returns (r: Result<(), CallError>, ghost acts: seq<Action>, ghost f: Fault)
      modifies this
      ensures (w, r) == CallDeleteCsr(ActAll(old(w), acts), name, f)
      ensures trace == Turn(old(trace), acts, f)
    {
      acts := OthersAct();
      var fault: Fault := *;
      f := fault;
      trace := trace + [Call(f)];
      var t := CallDeleteCsr(w, name, fault);
      w, r := t.0, t.1;
    }

    method CreateSecret(secret: Secret) returns (r: Result<(), CallError>, ghost acts: seq<Action>, ghost f: Fault)
      modifies this
      ensures (w, r) == CallCreateSecret(ActAll(old(w), acts), secret, f)
      ensures trace == Turn(old(trace), acts, f)
    {
      acts := OthersAct();
      var fault: Fault := *;
      f := fault;
      trace := trace + [Call(f)];
      var t := CallCreateSecret(w, secret, fault);
      w, r := t.0, t.1;
    }

    method UpdateSecret(secret: Secret) returns (r: Result<(), CallError>, ghost acts: seq<Action>, ghost f: Fault)
      modifies this
      ensures (w, r) == CallUpdateSecret(ActAll(old(w), acts), secret, f)
      ensures trace == Turn(old(trace), acts, f)
    {
      acts := OthersAct();
      var fault: Fault := *;
      f := fault;
      trace := trace + [Call(f)];
      var t := CallUpdateSecret(w, secret, fault);
      w, r := t.0, t.1;
    }

    method DeleteSecret(name: NamespacedName)
      returns (r: Result<(), CallError>, ghost acts: seq<Action>, ghost f: Fault)
      modifies this
      ensures (w, r) == CallDeleteSecret(ActAll(old(w), acts), name, f)
      ensures trace == Turn(old(trace), acts, f)
    {
      acts := OthersAct();
      var fault: Fault := *;
      f := fault;
      trace := trace + [Call(f)];
      var t := CallDeleteSecret(w, name, fault);
      w, r := t.0, t.1;
    }

    method GetSecret(name: NamespacedName)
      returns (r: Result<Secret, CallError>, ghost acts: seq<Action>, ghost f: Fault)
      modifies this
      ensures w == ActAll(old(w), acts) && r == CallGetSecret(w, name, f)
      ensures trace == Turn(old(trace), acts, f)
    {
      acts := OthersAct();
      var fault: Fault := *;
      f := fault;
      trace := trace + [Call(f)];
      r := CallGetSecret(w, name, fault);
    }
  }

  datatype RequestError = NoKey | IndexOutOfRange | Refused | StillWaiting

  class AutoCert {
    const names: seq<string>
    const secretName: string
    const secretNamespace: string
    var current: Option<Secret>

    constructor (names: seq<string>, name: string, namespace: string)
      ensures this.names == names && current == None
      ensures Name() == NamespacedName(if |namespace| == 0 then "kube-system" else namespace, name)
    {
      this.names, secretName, current := names, name, None;
      secretNamespace := if |namespace| == 0 then DEFAULT_NAMESPACE else namespace;
    }

    function Name(): NamespacedName {
      NamespacedName(secretNamespace, secretName)
    }

    /** One request, as a run of the protocol.  `patience` bounds the number of looks at the request, which the
        program does not; running out of it leaves the run in its waiting loop. */
    method Request(cli: Cluster, patience: nat)
      returns (r: Result<Secret, RequestError>, ghost key: KeyId, ghost labels: seq<Label>)
      modifies this, cli
      ensures cli.w == Run(Job(Name(), key), old(cli.w), labels).w && cli.trace == old(cli.trace) + labels
      ensures match r
              case Success(secret) => Published(Run(Job(Name(), key), old(cli.w), labels), key, secret)
              // Having submitted the request it has looked at it as often as it was allowed to.
              case Failure(StillWaiting) =>
                Run(Job(Name(), key), old(cli.w), labels).c.pc == Wait && Calls(labels) >= patience + 2
              case Failure(Refused) => Run(Job(Name(), key), old(cli.w), labels).c.pc == Failed
              case Failure(IndexOutOfRange) => labels == []
              case Failure(NoKey) => labels == []
      ensures names == [] ==> r == Failure(NoKey) || r == Failure(IndexOutOfRange)
      ensures r == Failure(IndexOutOfRange) ==> names == []
      ensures r.Failure? ==> current == old(current) || current == None || current == cli.failedGet
    {
      labels, key := [], 0;
      var generated := *;
      if !generated {
        return Failure(NoKey), key, labels;
      }
      var k: KeyId :| true;
      key := k;
      if |names| == 0 {
        return Failure(IndexOutOfRange), key, labels;
      }
      ghost var w0, before := cli.w, cli.trace;
      var submitted;
      submitted, labels := Submit(cli, k);
      if !submitted {
        return Failure(Refused), key, labels;
      }
      var signed;
      signed, labels := Await(cli, k, patience, w0, before, labels);
      if signed.None? {
        return Failure(StillWaiting), key, labels;
      }
      r, labels := Publish(cli, k, signed.value, w0, before, labels);
    }

    /** The state of a successful run, and what the local copy then is. */
    ghost predicate Published(s: State, key: KeyId, secret: Secret)
      reads this
    {
      && s.c.pc == Done
      && s.c.read.Some? && secret == Upload(Job(Name(), key), s.c.read.value)
      && Name() in s.w.secrets && current == Some(s.w.secrets[Name()])
    }

    /** Create the request, or take the one that exists, and approve it. */
    method Submit(cli: Cluster, key: KeyId) returns (ok: bool, ghost labels: seq<Label>)
      modifies cli
      ensures var s := Run(Job(Name(), key), old(cli.w), labels);
              s.w == cli.w && s.c.pc == if ok then Wait else Failed
      ensures cli.trace == old(cli.trace) + labels && (ok ==> Calls(labels) >= 2)
    {
      ghost var job, w0 := Job(Name(), key), cli.w;
      var csr;
      csr, labels := CreateOrGetCsr(cli, key);
      if csr.None? {
        return false, labels;
      }
      var draft := csr.value.(conditions := csr.value.conditions + [Approved]);
      var approved;
      ghost var acts, f;
      approved, acts, f := cli.UpdateApproval(secretName + "-csr", draft);
      RunTurn(job, w0, labels, acts, f);
      TurnAfter(old(cli.trace), labels, acts, f);
      CallsOfTurn(labels, acts, f);
      return approved.Success?, Turn(labels, acts, f);
    }

    method CreateOrGetCsr(cli: Cluster, key: KeyId) returns (csr: Option<Csr>, ghost labels: seq<Label>)
      modifies cli
      ensures var s := Run(Job(Name(), key), old(cli.w), labels);
              && s.w == cli.w
              && (if csr.Some? then s.c.pc == Approve && s.c.draft == csr else s.c.pc == Failed)
      ensures cli.trace == old(cli.trace) + labels && Calls(labels) >= 1
    {
      ghost var job, w0 := Job(Name(), key), cli.w;
      ghost var acts, f;
      var r;
      assert cli.trace == cli.trace + [];
      r, acts, f := cli.CreateCsr(secretName + "-csr", key);
      RunTurn(job, w0, [], acts, f);
      TurnAfter(old(cli.trace), [], acts, f);
      CallsOfTurn([], acts, f);
      labels := Turn([], acts, f);
      if r == Failure(AlreadyExists) {
        csr, labels := GetExistingCsr(cli, key, w0, old(cli.trace), labels);
      } else {
        csr := if r.Success? then Some(r.value) else None;
      }
    }

    method GetExistingCsr(cli: Cluster, key: KeyId, ghost w0: World, ghost before: seq<Label>, ghost start: seq<Label>)
      returns (csr: Option<Csr>, ghost labels: seq<Label>)
      requires var s := Run(Job(Name(), key), w0, start); s.w == cli.w && s.c.pc == GetExisting
      requires cli.trace == before + start
      modifies cli
      ensures cli.trace == before + labels && Calls(labels) == Calls(start) + 1
      ensures var s := Run(Job(Name(), key), w0, labels);
              && s.w == cli.w
              && (if csr.Some? then s.c.pc == Approve && s.c.draft == csr else s.c.pc == Failed)
    {
      var r;
      ghost var acts, f;
      r, acts, f := cli.GetCsr(secretName + "-csr");
      RunTurn(Job(Name(), key), w0, start, acts, f);
      TurnAfter(before, start, acts, f);
      CallsOfTurn(start, acts, f);
      csr, labels := if r.Success? then Some(r.value) else None, Turn(start, acts, f);
    }

    /** The waiting loop. */
    method Await(cli: Cluster, key: KeyId, patience: nat, ghost w0: World, ghost before: seq<Label>,
                 ghost start: seq<Label>)
      returns (signed: Option<Csr>, ghost labels: seq<Label>)
      requires var s := Run(Job(Name(), key), w0, start); s.w == cli.w && s.c.pc == Wait
      requires cli.trace == before + start
      modifies cli
      ensures cli.trace == before + labels
      // One call per look, and no giving up before the last one.
      ensures Calls(start) <= Calls(labels) <= Calls(start) + patience
      ensures signed.None? ==> Calls(labels) == Calls(start) + patience
      ensures var s := Run(Job(Name(), key), w0, labels);
              && s.w == cli.w
              && (if signed.Some? then s.c.pc == Remove && s.c.read == signed else s.c.pc == Wait)
    {
      ghost var job := Job(Name(), key);
      labels := start;
      for look := 0 to patience
        invariant var s := Run(job, w0, labels); s.w == cli.w && s.c.pc == Wait
        invariant cli.trace == before + labels && Calls(labels) == Calls(start) + look
      {
        var got;
        ghost var acts, f;
        got, acts, f := cli.GetCsr(secretName + "-csr");
        RunTurn(job, w0, labels, acts, f);
        TurnAfter(before, labels, acts, f);
        CallsOfTurn(labels, acts, f);
        labels := Turn(labels, acts, f);
        if got.Success? && |got.value.conditions| > 0 {
          if got.value.conditions[0] == Approved && got.value.certificate != NoCertificate {
            return Some(got.value), labels;
          }
        }
      }
      return None, labels;
    }

    /** Remove the request, upload the Secret and read it back. */
    method Publish(cli: Cluster, key: KeyId, signed: Csr, ghost w0: World, ghost before: seq<Label>,
                   ghost start: seq<Label>)
      returns (r: Result<Secret, RequestError>, ghost labels: seq<Label>)
      requires var s := Run(Job(Name(), key), w0, start); s.w == cli.w && s.c.pc == Remove && s.c.read == Some(signed)
      requires cli.trace == before + start
      modifies this, cli
      ensures cli.w == Run(Job(Name(), key), w0, labels).w && cli.trace == before + labels
      ensures match r
              case Success(secret) => Published(Run(Job(Name(), key), w0, labels), key, secret)
              case Failure(e) => e == Refused && Run(Job(Name(), key), w0, labels).c.pc == Failed
      ensures r.Failure? ==> current == old(current) || current == None || current == cli.failedGet
    {
      ghost var job := Job(Name(), key);
      ghost var acts, f;
      var removed;
      removed, acts, f := cli.DeleteCsr(secretName + "-csr");
      RunTurn(job, w0, start, acts, f);
      TurnAfter(before, start, acts, f);
      labels := Turn(start, acts, f);
      if removed.Failure? && removed.error != NotFound {
        return Failure(Refused), labels;
      }
      var secret := Secret(Name(), "kubernetes.io/tls", TLS(signed.certificate, key));
      var stored;
      stored, labels := CreateOrUpdateSecret(cli, secret, job, signed, w0, before, labels);
      if !stored {
        current := None;
        return Failure(Refused), labels;
      }
      var readBack;
      readBack, acts, f := cli.GetSecret(Name());
      RunTurn(job, w0, labels, acts, f);
      TurnAfter(before, labels, acts, f);
      labels := Turn(labels, acts, f);
      if readBack.Failure? {
        current := cli.failedGet;
        return Failure(Refused), labels;
      }
      current := Some(readBack.value);
      return Success(secret), labels;
    }

    /** The cached Secret if there is one, else the stored one, else a newly requested one. */
    method GetOrRequest(cli: Cluster, patience: nat)
      returns (r: Result<Secret, CertError>, ghost labels: seq<Label>, ghost asked: Option<Asked>)
      modifies this, cli
      ensures cli.trace == old(cli.trace) + labels
      // It has asked for a certificate, by a run of the protocol, or it answers with the copy or what it has found.
      ensures asked.Some? ==> old(current) == None && Requested(Name(), old(cli.w), cli.w, labels, asked.value, r)
      ensures asked.None? && r.Success? ==>
        Some(r.value) == if old(current).Some? then old(current) else StoredIn(cli.w, Name())
      ensures asked.None? && r.Failure? ==> r.error == GetFailed
      ensures Quiet(labels, Name()) ==> Answered(cli.failedGet, old(Now(cli, None)), Now(cli, AnswerOf(r)))
      ensures r == Failure(GetFailed) ==> exists l :: l in labels && l.Call? && l.f != Fine
      ensures r == Failure(RequestFailed(StillWaiting)) ==> Calls(labels) >= patience + 3
    {
      asked := None;
      if current.Some? {
        return Success(current.value), [], asked;
      }
      var got;
      ghost var acts, f;
      got, acts, f := cli.GetSecret(Name());
      labels := Turn([], acts, f);
      TurnAfter(old(cli.trace), [], acts, f);
      assert old(cli.trace) + [] == old(cli.trace);
      if Quiet(labels, Name()) { CalmTurn(old(cli.w), acts, f, Name()); }
      current := if got.Success? then Some(got.value) else cli.failedGet;
      if got.Success? {
        return Success(got.value), labels, asked;
      }
      if got.error != NotFound {
        assert labels[|labels| - 1] == Call(f);
        return Failure(GetFailed), labels, asked;
      }
      ghost var between := cli.w;
      var requested;
      ghost var key, more;
      requested, key, more := Request(cli, patience);
      current := if requested.Success? then Some(requested.value) else None;
      if Quiet(labels + more, Name()) {
        QuietParts(labels, more, Name());
        QuietRun(Job(Name(), key), between, more);
      }
      assert old(cli.trace) + labels + more == old(cli.trace) + (labels + more);
      asked := Some(Asked(acts, f, key, more));
      CallsOfTurn([], acts, f);
      CallsOfConcatenation(labels, more);
      labels := labels + more;
      r := if requested.Success? then Success(requested.value) else Failure(RequestFailed(requested.error));
    }

    /** Forgets the local copy and gets the Secret anew. */
    method Refresh(cli: Cluster, patience: nat)
      returns (r: Result<Secret, CertError>, ghost labels: seq<Label>, ghost asked: Option<Asked>)
      modifies this, cli
      ensures cli.trace == old(cli.trace) + labels
      ensures asked.Some? ==> Requested(Name(), old(cli.w), cli.w, labels, asked.value, r)
      ensures asked.None? && r.Success? ==> Some(r.value) == StoredIn(cli.w, Name())
      ensures asked.None? && r.Failure? ==> r.error == GetFailed
      ensures Quiet(labels, Name()) ==>
        Answered(cli.failedGet, old(Now(cli, None)).(cache := None), Now(cli, AnswerOf(r)))
      ensures r == Failure(GetFailed) ==> exists l :: l in labels && l.Call? && l.f != Fine
      ensures r == Failure(RequestFailed(StillWaiting)) ==> Calls(labels) >= patience + 3
    {
      current := None;
      r, labels, asked := GetOrRequest(cli, patience);
    }

    /** Deletes the stored Secret; one that is not there is fine.  The local copy stays. */
    method Delete(cli: Cluster) returns (r: Result<(), CertError>, ghost acts: seq<Action>, ghost f: Fault)
      modifies cli
      ensures current == old(current) && cli.trace == Turn(old(cli.trace), acts, f)
      ensures f == Fine ==> r.Success?
      ensures r.Success? ==> cli.w == ActAll(old(cli.w), acts).(secrets := ActAll(old(cli.w), acts).secrets - {Name()})
      ensures r.Failure? ==> cli.w == ActAll(old(cli.w), acts) || StoredIn(cli.w, Name()) == None
      ensures Quiet(Turn([], acts, f), Name()) ==> Deleted(old(Now(cli, None)), Now(cli, None))
      // So a successful Delete leaves the copy in agreement exactly when there is none.
      ensures r.Success? ==> (Agrees(Now(cli, None)) <==> current == None)
    {
      var deleted;
      deleted, acts, f := cli.DeleteSecret(Name());
      if Quiet(Turn([], acts, f), Name()) { CalmTurn(old(cli.w), acts, f, Name()); }
      if deleted.Failure? && deleted.error != NotFound {
        return Failure(GetFailed), acts, f;
      }
      return Success(()), acts, f;
    }

    ghost function Now(cli: Cluster, answer: Option<Secret>): Moment
      reads this, cli
    {
      Moment(current, StoredIn(cli.w, Name()), answer)
    }
  }

  datatype CertError = GetFailed | RequestFailed(error: RequestError)

  /** A lookup that found nothing, with the others' turn before it, and the request that followed. */
  datatype Asked = Asked(acts: seq<Action>, f: Fault, key: KeyId, run: seq<Label>)

  /** From w to w', the labels are such a lookup and a run of the protocol, which ended as the answer says. */
  ghost predicate Requested(name: NamespacedName, w: World, w': World, labels: seq<Label>, a: Asked,
                            r: Result<Secret, CertError>)
  {
    var between := ActAll(w, a.acts);
    var s := Run(Job(name, a.key), between, a.run);
    && labels == Turn([], a.acts, a.f) + a.run
    && CallGetSecret(between, name, a.f) == Failure(NotFound)
    && w' == s.w
    && match r
       case Success(secret) => s.c.pc == Done && s.c.read.Some? && secret == Upload(Job(name, a.key), s.c.read.value)
       case Failure(RequestFailed(StillWaiting)) => s.c.pc == Wait
       case Failure(RequestFailed(Refused)) => s.c.pc == Failed
       case Failure(RequestFailed(_)) => a.run == []
       case Failure(GetFailed) => false
  }

  lemma {:induction false} ActsKeepForm(w: World, acts: seq<Action>)
    requires WellFormed(w)
    ensures WellFormed(ActAll(w, acts))
  {
    if acts != [] {
      ActsKeepForm(w, acts[..|acts| - 1]);
    }
  }

  lemma {:induction false} ActsKeepOwnKey(job: Job, w: World, acts: seq<Action>)
    requires OnlyOwnKey(job, Start(w)) && AllLeaveRequest(Others(acts), job.CsrName())
    ensures OnlyOwnKey(job, Start(ActAll(w, acts)))
  {
    if acts != [] {
      var n := |acts| - 1;
      assert Others(acts) == Others(acts[..n]) + [Other(acts[n])];
      ActsKeepOwnKey(job, w, acts[..n]);
      assert LeavesRequest(Other(acts[n]), job.CsrName());
    }
  }

  /** A certificate that GetOrRequest or Refresh has asked for was, at some point of the call, stored under the right
      name with the client's own key; and it is for that key if no request of that name was there before and nobody
      else made or removed one. */
  lemma RequestedIsPublished(name: NamespacedName, w: World, w': World, labels: seq<Label>, a: Asked, secret: Secret)
    requires WellFormed(w) && Requested(name, w, w', labels, a, Success(secret))
    ensures secret.name == name && secret.payload.TLS? && secret.payload.privateKey == a.key
    ensures exists n :: 0 <= n <= |a.run|
                     && StoredIn(Run(Job(name, a.key), ActAll(w, a.acts), a.run[..n]).w, name) == Some(secret)
    ensures AllLeaveRequest(labels, Job(name, a.key).CsrName()) && Job(name, a.key).CsrName() !in w.csrs ==>
              secret.payload.certificate == SignedFor(a.key)
  {
    var job, between := Job(name, a.key), ActAll(w, a.acts);
    ActsKeepForm(w, a.acts);
    SecretWasUploaded(job, between, a.run);
    RunKeepsInv(job, between, a.run);
    var n := Run(job, between, a.run).c.storedAt;
    assert StoredIn(Run(job, between, a.run[..n]).w, name) == Some(secret);
    if AllLeaveRequest(labels, job.CsrName()) && job.CsrName() !in w.csrs {
      assert forall l :: l in Others(a.acts) || l in a.run ==> l in labels;
      ActsKeepOwnKey(job, w, a.acts);
      OwnKeyThroughout(job, between, a.run);
    }
  }

  lemma {:induction false} ActsKeepRequest(w: World, acts: seq<Action>, csr: string)
    requires AllLeaveRequest(Others(acts), csr)
    ensures csr in ActAll(w, acts).csrs <==> csr in w.csrs
    ensures csr in w.csrs ==> ActAll(w, acts).csrs[csr].request == w.csrs[csr].request
  {
    if acts != [] {
      var n := |acts| - 1;
      assert Others(acts) == Others(acts[..n]) + [Other(acts[n])];
      ActsKeepRequest(w, acts[..n], csr);
      assert LeavesRequest(Other(acts[n]), csr);
    }
  }

  /** Two calls in a row, from a free name and with nobody else creating or deleting a request of it: the first one
      asks for a certificate and is refused, the second one succeeds.  It returns a certificate for the key of the
      first one if that had left its request behind, and otherwise for its own. */
  lemma RetryTakesTheAbandoned(name: NamespacedName, w: World, between: World, w': World, labels: seq<Label>, a: Asked,
                               labels': seq<Label>, a': Asked, secret: Secret)
    requires WellFormed(w) && Job(name, a.key).CsrName() !in w.csrs
    requires Requested(name, w, between, labels, a, Failure(RequestFailed(Refused)))
    requires Requested(name, between, w', labels', a', Success(secret))
    requires AllLeaveRequest(labels + labels', Job(name, a.key).CsrName())
    ensures var cause := Cause(Job(name, a.key), ActAll(w, a.acts), a.run);
            && cause.Some?
            && secret.payload == TLS(SignedFor(if LeavesOwn(cause.value) then a.key else a'.key), a'.key)
  {
    var job, retry, csr := Job(name, a.key), Job(name, a'.key), Job(name, a.key).CsrName();
    assert forall l :: l in Others(a.acts) || l in a.run ==> l in labels;
    assert forall l :: l in Others(a'.acts) || l in a'.run ==> l in labels';
    assert forall l :: l in labels || l in labels' ==> l in labels + labels';
    ActsKeepForm(w, a.acts);
    ActsKeepRequest(w, a.acts, csr);
    RunKeepsInv(job, ActAll(w, a.acts), a.run);
    AbandonsExactly(job, ActAll(w, a.acts), a.run);
    ActsKeepForm(between, a'.acts);
    ActsKeepRequest(between, a'.acts, csr);
    ReadsWhatIsThere(retry, ActAll(between, a'.acts), a'.run);
  }

  /** The local copy, the stored Secret, and the Secret the latest call returned, if it succeeded. */
  datatype Moment = Moment(cache: Option<Secret>, stored: Option<Secret>, answer: Option<Secret>)

  function AnswerOf(r: Result<Secret, CertError>): Option<Secret> {
    if r.Success? then Some(r.value) else None
  }

  function StoredIn(w: World, name: NamespacedName): Option<Secret> {
    if name in w.secrets then Some(w.secrets[name]) else None
  }

  /** One call of GetOrRequest that nobody disturbs: the copy is used; or the stored Secret is found and copied; or
      the Get fails; or there is nothing and a request succeeds or fails. */
  predicate Answered(failedGet: Option<Secret>, pre: Moment, post: Moment) {
    if pre.cache.Some? then
      post == pre.(answer := pre.cache)
    else
      || (pre.stored.Some? && post == Moment(pre.stored, pre.stored, pre.stored))
      || post == Moment(failedGet, pre.stored, None)
      || (pre.stored.None? && post.stored.Some? && post == Moment(post.stored, post.stored, post.stored))
      || (pre.stored.None? && post.cache == None && post.answer == None)
  }

  // Undisturbed runs.

  predicate LeavesSecret(l: Label, name: NamespacedName) {
    match l
    case Other(WriteSecret(secret)) => secret.name != name
    case Other(DeleteSecret(n)) => n != name
    case _ => true
  }

  predicate Quiet(labels: seq<Label>, name: NamespacedName) {
    forall i :: 0 <= i < |labels| ==> LeavesSecret(labels[i], name)
  }

  lemma QuietParts(a: seq<Label>, b: seq<Label>, name: NamespacedName)
    requires Quiet(a + b, name)
    ensures Quiet(a, name) && Quiet(b, name)
  {
    assert forall i :: 0 <= i < |a| ==> (a + b)[i] == a[i];
    assert forall i :: 0 <= i < |b| ==> (a + b)[|a| + i] == b[i];
  }

  lemma CalmTurn(w: World, acts: seq<Action>, f: Fault, name: NamespacedName)
    requires Quiet(Turn([], acts, f), name)
    ensures StoredIn(ActAll(w, acts), name) == StoredIn(w, name)
  {
    forall i | 0 <= i < |acts| ensures LeavesSecret(Other(acts[i]), name) {
      assert Turn([], acts, f)[i] == Other(acts[i]);
    }
    CalmActs(w, acts, name);
  }

  lemma {:induction false} CalmActs(w: World, acts: seq<Action>, name: NamespacedName)
    requires forall i :: 0 <= i < |acts| ==> LeavesSecret(Other(acts[i]), name)
    ensures StoredIn(ActAll(w, acts), name) == StoredIn(w, name)
  {
    if acts != [] {
      var n := |acts| - 1;
      CalmActs(w, acts[..n], name);
      assert LeavesSecret(Other(acts[n]), name);
    }
  }

  /** The Secret is as in w until the client has uploaded its own. */
  predicate Untouched(job: Job, w: World, s: State) {
    && (Rank(s.c.pc) < Rank(ReadBack) ==> StoredIn(s.w, job.name) == StoredIn(w, job.name))
    && (After(s.c.pc, ReadBack) ==> s.c.read.Some? && StoredIn(s.w, job.name) == Some(Upload(job, s.c.read.value)))
  }

  /** When nobody else touches the Secret, a run leaves it alone until it uploads its own. */
  lemma {:induction false} QuietRun(job: Job, w: World, labels: seq<Label>)
    requires Quiet(labels, job.name)
    ensures Untouched(job, w, Run(job, w, labels))
  {
    if labels != [] {
      var n := |labels| - 1;
      QuietRun(job, w, labels[..n]);
      assert LeavesSecret(labels[n], job.name);
      QuietStep(job, w, Run(job, w, labels[..n]), labels[n], n);
    }
  }

  lemma QuietStep(job: Job, w: World, s: State, l: Label, n: nat)
    requires LeavesSecret(l, job.name) && Untouched(job, w, s)
    ensures Untouched(job, w, Step(job, s, l, n))
  {
  }

  // Agreement of the local copy.

  predicate Agrees(m: Moment) {
    m.cache.Some? ==> m.stored == m.cache
  }

  /** A call of GetOrRequest, or of Refresh, which forgets the copy first. */
  predicate Called(failedGet: Option<Secret>, pre: Moment, post: Moment) {
    Answered(failedGet, pre, post) || Answered(failedGet, pre.(cache := None), post)
  }

  /** Any sequence of undisturbed calls, from an agreeing moment on. */
  predicate Session(failedGet: Option<Secret>, history: seq<Moment>) {
    && |history| > 0 && Agrees(history[0])
    && forall i :: 0 < i < |history| ==> Called(failedGet, history[i - 1], history[i])
  }

  /** If a failing Get returns nil, the copy agrees with the stored Secret throughout every session, and each answer
      is what a fresh lookup would give. */
  lemma {:induction false} CopyAgrees(history: seq<Moment>)
    requires Session(None, history)
    ensures forall i :: 0 <= i < |history| ==> Agrees(history[i])
    ensures forall i :: 0 < i < |history| && history[i].answer.Some? ==> history[i].answer == history[i].stored
  {
    var n := |history| - 1;
    if n > 0 {
      CopyAgrees(history[..n]);
      assert Agrees(history[..n][n - 1]);
    }
  }

  /** That condition is needed: sessions always keep the copy in agreement exactly when a failing Get returns nil. */
  lemma AgreementNeedsNil(failedGet: Option<Secret>)
    ensures (forall history :: Session(failedGet, history) ==> Agrees(history[|history| - 1])) <==> failedGet == None
  {
    if failedGet == None {
      forall history | Session(failedGet, history) ensures Agrees(history[|history| - 1]) {
        CopyAgrees(history);
      }
    } else {
      var history := [Moment(None, None, None), Moment(failedGet, None, None)];
      assert Called(failedGet, history[0], history[1]);
      assert !Agrees(history[1]);
    }
  }

  /** With a client that returns an empty object beside its error, one failing Get makes the next call answer with
      that object although nothing is stored. */
  lemma EmptyObjectIsAnswered(empty: Secret)
    ensures var unread, failed := Moment(None, None, None), Moment(Some(empty), None, None);
            var history := [unread, failed, failed.(answer := Some(empty))];
            Session(Some(empty), history) && history[2].answer == Some(empty) && history[2].stored == None
  {
  }

  // Sessions with Delete, which does not touch the copy.

  datatype Op = Get | Refresh | Delete

  predicate Deleted(pre: Moment, post: Moment) {
    post.cache == pre.cache && post.answer == None && (post.stored == None || post.stored == pre.stored)
  }

  /** One undisturbed call, for a client whose failing Get returns nil. */
  predicate Does(op: Op, pre: Moment, post: Moment) {
    match op
    case Get => Answered(None, pre, post)
    case Refresh => Answered(None, pre.(cache := None), post)
    case Delete => Deleted(pre, post)
  }

  /** The history of a new AutoCert on which the calls are made in turn. */
  predicate Plays(ops: seq<Op>, history: seq<Moment>) {
    && |history| == |ops| + 1 && history[0].cache == None
    && forall i :: 0 <= i < |ops| ==> Does(ops[i], history[i], history[i + 1])
  }

  predicate MayHaveCopy(ops: seq<Op>) {
    Get in ops || Refresh in ops
  }

  /** Some Delete comes after a call that may have left a copy, and no Refresh comes after it. */
  predicate CopyMayOutlive(ops: seq<Op>) {
    exists i :: 0 <= i < |ops| && OutlivesAt(ops, i)
  }

  predicate OutlivesAt(ops: seq<Op>, i: nat)
    requires i < |ops|
  {
    ops[i] == Delete && MayHaveCopy(ops[..i]) && Refresh !in ops[i..]
  }

  /** No other Secret than the given one is ever stored, copied or returned. */
  predicate OnlyHolds(history: seq<Moment>, secret: Secret) {
    forall i :: 0 <= i < |history| ==> HoldsAtMost(history[i], secret)
  }

  predicate HoldsAtMost(m: Moment, secret: Secret) {
    && (m.cache.Some? ==> m.cache.value == secret)
    && (m.stored.Some? ==> m.stored.value == secret)
    && (m.answer.Some? ==> m.answer.value == secret)
  }

  /** The copy is sure to agree with the stored Secret after a sequence of calls exactly when every Delete that may
      have found a copy is followed by a Refresh; and it makes no difference if, whatever it is, one and the same
      Secret turns up throughout. */
  lemma DeleteKeepsTheCopy(ops: seq<Op>, secret: Secret)
    ensures (forall history :: Plays(ops, history) ==> Agrees(history[|ops|])) <==> !CopyMayOutlive(ops)
    ensures (forall history :: Plays(ops, history) && OnlyHolds(history, secret) ==> Agrees(history[|ops|]))
       <==> !CopyMayOutlive(ops)
  {
    forall history | Plays(ops, history) ensures !CopyMayOutlive(ops) ==> Agrees(history[|ops|]) {
      AgreesUnlessOutlived(ops, history);
    }
    if CopyMayOutlive(ops) {
      var history := seq(|ops| + 1, i requires 0 <= i <= |ops| => Lucky(ops[..i], secret));
      LuckyPlays(ops, secret);
      LuckyOutlives(ops, secret);
      assert ops[..|ops|] == ops;
      assert Plays(ops, history) && OnlyHolds(history, secret) && !Agrees(history[|ops|]);
    }
  }

  lemma OneMoreOp(ops: seq<Op>, op: Op)
    ensures CopyMayOutlive(ops + [op]) <==>
            match op
            case Get => CopyMayOutlive(ops)
            case Refresh => false
            case Delete => CopyMayOutlive(ops) || MayHaveCopy(ops)
    ensures MayHaveCopy(ops + [op]) <==> MayHaveCopy(ops) || op != Delete
  {
    var more, n := ops + [op], |ops|;
    assert OutlivesAt(more, n) <==> op == Delete && MayHaveCopy(ops) by {
      assert more[n] == op && more[..n] == ops && more[n..] == [op];
    }
    forall i | 0 <= i < n ensures OutlivesAt(more, i) <==> OutlivesAt(ops, i) && op != Refresh {
      OutlivesLater(ops, op, i);
    }
    if CopyMayOutlive(ops) && op != Refresh {
      var i :| 0 <= i < n && OutlivesAt(ops, i);
      assert OutlivesAt(more, i);
    }
  }

  lemma OutlivesLater(ops: seq<Op>, op: Op, i: nat)
    requires i < |ops|
    ensures OutlivesAt(ops + [op], i) <==> OutlivesAt(ops, i) && op != Refresh
  {
    assert (ops + [op])[..i] == ops[..i] && (ops + [op])[i..] == ops[i..] + [op];
  }

  lemma {:induction false} AgreesUnlessOutlived(ops: seq<Op>, history: seq<Moment>)
    requires Plays(ops, history)
    ensures history[|ops|].cache.Some? ==> MayHaveCopy(ops)
    ensures !CopyMayOutlive(ops) ==> Agrees(history[|ops|])
  {
    if ops != [] {
      var n := |ops| - 1;
      assert ops == ops[..n] + [ops[n]];
      AgreesUnlessOutlived(ops[..n], history[..n + 1]);
      OneMoreOp(ops[..n], ops[n]);
    }
  }

  /** The history in which every lookup and request yields the given Secret and every Delete is carried out. */
  function Lucky(ops: seq<Op>, secret: Secret): Moment {
    if ops == [] then Moment(None, None, None)
    else
      var pre, found := Lucky(ops[..|ops| - 1], secret), Some(secret);
      match ops[|ops| - 1]
      case Get => if pre.cache.Some? then pre.(answer := pre.cache) else Moment(found, found, found)
      case Refresh => Moment(found, found, found)
      case Delete => pre.(stored := None, answer := None)
  }

  lemma {:induction false} LuckyOutlives(ops: seq<Op>, secret: Secret)
    ensures var m := Lucky(ops, secret);
            && (m.cache.Some? <==> MayHaveCopy(ops))
            && HoldsAtMost(m, secret)
            && (m.stored.Some? ==> m.stored == m.cache)
            && (Agrees(m) <==> !CopyMayOutlive(ops))
  {
    if ops != [] {
      var n := |ops| - 1;
      assert ops == ops[..n] + [ops[n]];
      LuckyOutlives(ops[..n], secret);
      OneMoreOp(ops[..n], ops[n]);
    }
  }

  lemma LuckyPlays(ops: seq<Op>, secret: Secret)
    ensures var history := seq(|ops| + 1, i requires 0 <= i <= |ops| => Lucky(ops[..i], secret));
            Plays(ops, history) && OnlyHolds(history, secret)
  {
    forall i | 0 <= i < |ops| ensures Does(ops[i], Lucky(ops[..i], secret), Lucky(ops[..i + 1], secret)) {
      assert ops[..i + 1][..i] == ops[..i];
      LuckyOutlives(ops[..i], secret);
    }
    forall i | 0 <= i <= |ops| ensures HoldsAtMost(Lucky(ops[..i], secret), secret) {
      LuckyOutlives(ops[..i], secret);
    }
  }

  /** kubeadm's helper: create the Secret, and overwrite it if it exists. */
  method CreateOrUpdateSecret(cli: Cluster, secret: Secret, ghost job: Job, ghost signed: Csr, ghost w0: World,
                              ghost before: seq<Label>, ghost start: seq<Label>)
    returns (ok: bool, ghost labels: seq<Label>)
    requires secret == Upload(job, signed)
    requires var s := Run(job, w0, start); s.w == cli.w && s.c.pc == UploadNew && s.c.read == Some(signed)
    requires cli.trace == before + start
    modifies cli
    ensures cli.trace == before + labels
    ensures var s := Run(job, w0, labels);
            && s.w == cli.w && s.c.read == Some(signed)
            && s.c.pc == if ok then ReadBack else Failed
  {
    ghost var acts, f;
    var stored;
    stored, acts, f := cli.CreateSecret(secret);
    RunTurn(job, w0, start, acts, f);
    TurnAfter(before, start, acts, f);
    labels := Turn(start, acts, f);
    if stored == Failure(AlreadyExists) {
      stored, acts, f := cli.UpdateSecret(secret);
      RunTurn(job, w0, labels, acts, f);
      TurnAfter(before, labels, acts, f);
      labels := Turn(labels, acts, f);
    }
    ok := stored.Success?;
  }
}

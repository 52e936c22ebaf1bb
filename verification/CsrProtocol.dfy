/** The certificate request of AutoCert.Request (pkg/crypto/service_cert.go) as a transition system: one client that
    creates, approves, awaits, removes and publishes, and other parties that act between any two of its calls. */
module CsrProtocol {
  import opened Wrappers
  import opened Names

  /** A private key, known by its identity. */
  type KeyId = nat

  /** The bytes of a certificate: none yet, or a certificate issued for a key. */
  datatype Certificate = NoCertificate | SignedFor(key: KeyId)

  datatype Condition = Approved | OtherCondition

  /** Versions and uids are handed out by one increasing clock. */
  datatype Csr = Csr(uid: nat, version: nat, request: KeyId, conditions: seq<Condition>, certificate: Certificate)

  datatype Payload = TLS(certificate: Certificate, privateKey: KeyId) | OtherPayload(data: string)

  datatype Secret = Secret(name: NamespacedName, secretType: string, payload: Payload)

  datatype World = World(csrs: map<string, Csr>, secrets: map<NamespacedName, Secret>, clock: nat)

  /** What the signer, other approvers and other writers may do. */
  datatype Action =
    | Sign(csr: string)
    | SetConditions(csr: string, conditions: seq<Condition>)
    | CreateCsr(csr: string, request: KeyId)
    | DeleteCsr(csr: string)
    | WriteSecret(secret: Secret)
    | DeleteSecret(name: NamespacedName)

  /** Certificates are issued for the key of the request, requests never change, and uids are not reused. */
  predicate WellFormed(w: World) {
    forall n :: n in w.csrs ==>
      && w.csrs[n].uid < w.clock && w.csrs[n].version < w.clock
      && (w.csrs[n].certificate == NoCertificate || w.csrs[n].certificate == SignedFor(w.csrs[n].request))
  }

  function PutCsr(w: World, name: string, csr: Csr): World {
    World(w.csrs[name := csr.(version := w.clock)], w.secrets, w.clock + 1)
  }

  function NewCsr(w: World, request: KeyId): Csr {
    Csr(w.clock, w.clock, request, [], NoCertificate)
  }

  function Act(w: World, a: Action): World {
    match a
    case Sign(n) =>
      if n in w.csrs then PutCsr(w, n, w.csrs[n].(certificate := SignedFor(w.csrs[n].request))) else w
    case SetConditions(n, conditions) =>
      if n in w.csrs then PutCsr(w, n, w.csrs[n].(conditions := conditions)) else w
    case CreateCsr(n, request) =>
      if n in w.csrs then w else PutCsr(w, n, NewCsr(w, request))
    case DeleteCsr(n) => w.(csrs := w.csrs - {n})
    case WriteSecret(secret) => w.(secrets := w.secrets[secret.name := secret])
    case DeleteSecret(n) => w.(secrets := w.secrets - {n})
  }

  // The client's calls.

  datatype Fault = Fine | Broken | Lost

  datatype CallError = NotFound | AlreadyExists | Conflict | CallFailed

  /** The answer gets lost when the fault says so, after the call has been carried out. */
  function Answer<T>(f: Fault, v: T): Result<T, CallError> {
    if f == Lost then Failure(CallFailed) else Success(v)
  }

  function CallCreateCsr(w: World, name: string, request: KeyId, f: Fault): (World, Result<Csr, CallError>) {
    if f == Broken then (w, Failure(CallFailed))
    else if name in w.csrs then (w, Failure(AlreadyExists))
    else (PutCsr(w, name, NewCsr(w, request)), Answer(f, NewCsr(w, request)))
  }

  function CallGetCsr(w: World, name: string, f: Fault): Result<Csr, CallError> {
    if f != Fine then Failure(CallFailed)
    else if name in w.csrs then Success(w.csrs[name])
    else Failure(NotFound)
  }

  /** UpdateApproval replaces the conditions and nothing else, and only on the version that was read. */
  function CallUpdateApproval(w: World, name: string, draft: Csr, f: Fault): (World, Result<(), CallError>) {
    if f == Broken then (w, Failure(CallFailed))
    else if name !in w.csrs then (w, Failure(NotFound))
    else if w.csrs[name].version != draft.version then (w, Failure(Conflict))
    else (PutCsr(w, name, w.csrs[name].(conditions := draft.conditions)), Answer(f, ()))
  }

  function CallDeleteCsr(w: World, name: string, f: Fault): (World, Result<(), CallError>) {
    if f == Broken then (w, Failure(CallFailed))
    else if name !in w.csrs then (w, Failure(NotFound))
    else (w.(csrs := w.csrs - {name}), Answer(f, ()))
  }

  function CallCreateSecret(w: World, secret: Secret, f: Fault): (World, Result<(), CallError>) {
    if f == Broken then (w, Failure(CallFailed))
    else if secret.name in w.secrets then (w, Failure(AlreadyExists))
    else (w.(secrets := w.secrets[secret.name := secret]), Answer(f, ()))
  }

  function CallUpdateSecret(w: World, secret: Secret, f: Fault): (World, Result<(), CallError>) {
    if f == Broken then (w, Failure(CallFailed))
    else if secret.name !in w.secrets then (w, Failure(NotFound))
    else (w.(secrets := w.secrets[secret.name := secret]), Answer(f, ()))
  }

  function CallDeleteSecret(w: World, name: NamespacedName, f: Fault): (World, Result<(), CallError>) {
    if f == Broken then (w, Failure(CallFailed))
    else if name !in w.secrets then (w, Failure(NotFound))
    else (w.(secrets := w.secrets - {name}), Answer(f, ()))
  }

  function CallGetSecret(w: World, name: NamespacedName, f: Fault): Result<Secret, CallError> {
    if f != Fine then Failure(CallFailed)
    else if name in w.secrets then Success(w.secrets[name])
    else Failure(NotFound)
  }

  // The client.

  datatype Pc = Create | GetExisting | Approve | Wait | Remove | UploadNew | UploadOver | ReadBack | Done | Failed

  /** What the client is after: fixed for one run. */
  datatype Job = Job(name: NamespacedName, key: KeyId) {
    function CsrName(): string { name.name + "-csr" }
  }

  /** The client's variables, and for the record: the uid of the request it created itself, and the numbers of the
      steps at which it read the certificate, left no request behind and stored the Secret. */
  datatype Client = Client(
    pc: Pc,
    draft: Option<Csr>,
    read: Option<Csr>,
    created: Option<nat>,
    readAt: nat,
    goneAt: nat,
    storedAt: nat)

  datatype State = State(w: World, c: Client)

  datatype Label = Other(a: Action) | Call(f: Fault)

  /** The test of the waiting loop: the first condition is the approval and there is a certificate. */
  predicate Ready(csr: Csr) {
    |csr.conditions| > 0 && csr.conditions[0] == Approved && csr.certificate != NoCertificate
  }

  function Upload(job: Job, csr: Csr): Secret {
    Secret(job.name, "kubernetes.io/tls", TLS(csr.certificate, job.key))
  }

  function Fail(s: State, w: World): State {
    State(w, s.c.(pc := Failed))
  }

  /** The client's next call, as the n-th step of the run. */
  function ClientStep(job: Job, s: State, f: Fault, n: nat): State {
    var c, w, csr := s.c, s.w, job.CsrName();
    match c.pc
    case Create =>
      var (w', r) := CallCreateCsr(w, csr, job.key, f);
      if r.Success? then State(w', c.(pc := Approve, draft := Some(r.value), created := Some(r.value.uid)))
      else if r.error == AlreadyExists then State(w', c.(pc := GetExisting))
      else Fail(s, w')
    case GetExisting =>
      var r := CallGetCsr(w, csr, f);
      if r.Success? then State(w, c.(pc := Approve, draft := Some(r.value))) else Fail(s, w)
    case Approve =>
      if c.draft.None? then s
      else
        var draft := c.draft.value;
        var (w', r) := CallUpdateApproval(w, csr, draft.(conditions := draft.conditions + [Approved]), f);
        if r.Success? then State(w', c.(pc := Wait)) else Fail(s, w')
    case Wait =>
      var r := CallGetCsr(w, csr, f);
      if r.Success? && Ready(r.value) then State(w, c.(pc := Remove, read := Some(r.value), readAt := n)) else s
    case Remove =>
      var (w', r) := CallDeleteCsr(w, csr, f);
      if r.Success? || r.error == NotFound then State(w', c.(pc := UploadNew, goneAt := n + 1)) else Fail(s, w')
    case UploadNew =>
      if c.read.None? then s
      else
        var (w', r) := CallCreateSecret(w, Upload(job, c.read.value), f);
        if r.Success? then State(w', c.(pc := ReadBack, storedAt := n + 1))
        else if r.error == AlreadyExists then State(w', c.(pc := UploadOver))
        else Fail(s, w')
    case UploadOver =>
      if c.read.None? then s
      else
        var (w', r) := CallUpdateSecret(w, Upload(job, c.read.value), f);
        if r.Success? then State(w', c.(pc := ReadBack, storedAt := n + 1)) else Fail(s, w')
    case ReadBack =>
      var r := CallGetSecret(w, job.name, f);
      if r.Success? then State(w, c.(pc := Done)) else Fail(s, w)
    case Done => s
    case Failed => s
  }

  function Step(job: Job, s: State, l: Label, n: nat): State {
    match l
    case Other(a) => s.(w := Act(s.w, a))
    case Call(f) => ClientStep(job, s, f, n)
  }

  function Start(w: World): State {
    State(w, Client(Create, None, None, None, 0, 0, 0))
  }

  /** The state after a run; the labels stand for every interleaving and every fault. */
  function Run(job: Job, w: World, labels: seq<Label>): State {
    if labels == [] then Start(w)
    else
      var n := |labels| - 1;
      Step(job, Run(job, w, labels[..n]), labels[n], n)
  }

  // Safety over all runs.

  predicate After(pc: Pc, stage: Pc) {
    Rank(pc) >= Rank(stage) && pc != Failed
  }

  function Rank(pc: Pc): nat {
    match pc
    case Create => 0
    case GetExisting => 1
    case Approve => 2
    case Wait => 3
    case Remove => 4
    case UploadNew => 5
    case UploadOver => 6
    case ReadBack => 7
    case Done => 8
    case Failed => 9
  }

  /** A request with the uid of the client's own request carries the client's key. */
  predicate OwnRequest(job: Job, s: State) {
    s.c.created.Some? ==>
      && s.c.created.value < s.w.clock
      && (forall n :: n in s.w.csrs && s.w.csrs[n].uid == s.c.created.value ==> s.w.csrs[n].request == job.key)
  }

  predicate OwnDraft(job: Job, s: State) {
    && (Rank(s.c.pc) < Rank(Approve) ==> s.c.created.None?)
    && (After(s.c.pc, Approve) ==> s.c.draft.Some?)
    && (s.c.pc == Approve && s.c.created.Some? ==> s.c.draft.value.conditions == [])
  }

  /** What has been read is a ready request, and one with the client's uid carries the client's key. */
  predicate GoodRead(job: Job, s: State) {
    && (Rank(s.c.pc) < Rank(Remove) ==> s.c.read.None?)
    && (After(s.c.pc, Remove) ==> s.c.read.Some?)
    && (s.c.read.Some? ==>
          && Ready(s.c.read.value)
          && s.c.read.value.certificate == SignedFor(s.c.read.value.request)
          && (s.c.created == Some(s.c.read.value.uid) ==> s.c.read.value.request == job.key))
  }

  predicate Inv(job: Job, s: State) {
    WellFormed(s.w) && OwnRequest(job, s) && OwnDraft(job, s) && GoodRead(job, s)
  }

  lemma ActKeepsInv(job: Job, s: State, a: Action)
    requires Inv(job, s)
    ensures Inv(job, s.(w := Act(s.w, a)))
  {
  }

  lemma ClientKeepsForm(job: Job, s: State, f: Fault, n: nat)
    requires Inv(job, s)
    ensures WellFormed(ClientStep(job, s, f, n).w)
  {
  }

  lemma ClientKeepsRequests(job: Job, s: State, f: Fault, n: nat)
    requires Inv(job, s)
    ensures OwnRequest(job, ClientStep(job, s, f, n))
  {
  }

  lemma ClientKeepsDraft(job: Job, s: State, f: Fault, n: nat)
    requires Inv(job, s)
    ensures OwnDraft(job, ClientStep(job, s, f, n))
  {
  }

  lemma ClientKeepsReads(job: Job, s: State, f: Fault, n: nat)
    requires Inv(job, s)
    ensures GoodRead(job, ClientStep(job, s, f, n))
  {
  }

  lemma {:induction false} RunKeepsInv(job: Job, w: World, labels: seq<Label>)
    requires WellFormed(w)
    ensures Inv(job, Run(job, w, labels))
  {
    if labels != [] {
      var n := |labels| - 1;
      RunKeepsInv(job, w, labels[..n]);
      match labels[n] {
        case Other(a) => ActKeepsInv(job, Run(job, w, labels[..n]), a);
        case Call(f) =>
          ClientKeepsForm(job, Run(job, w, labels[..n]), f, n);
          ClientKeepsRequests(job, Run(job, w, labels[..n]), f, n);
          ClientKeepsDraft(job, Run(job, w, labels[..n]), f, n);
          ClientKeepsReads(job, Run(job, w, labels[..n]), f, n);
      }
    }
  }

  /** The recorded step numbers are true: at those points of the run the world was as the client saw or left it. */
  predicate ReadWasThere(job: Job, w: World, labels: seq<Label>) {
    var s := Run(job, w, labels);
    After(s.c.pc, Remove) ==>
      && s.c.read.Some? && s.c.readAt < |labels|
      && var csrs := Run(job, w, labels[..s.c.readAt]).w.csrs;
         job.CsrName() in csrs && csrs[job.CsrName()] == s.c.read.value
  }

  predicate RequestWasGone(job: Job, w: World, labels: seq<Label>) {
    var s := Run(job, w, labels);
    After(s.c.pc, UploadNew) ==>
      && s.c.readAt < s.c.goneAt <= |labels|
      && job.CsrName() !in Run(job, w, labels[..s.c.goneAt]).w.csrs
  }

  predicate SecretWasStored(job: Job, w: World, labels: seq<Label>) {
    var s := Run(job, w, labels);
    After(s.c.pc, ReadBack) ==>
      && s.c.read.Some? && s.c.goneAt < s.c.storedAt <= |labels|
      && var secrets := Run(job, w, labels[..s.c.storedAt]).w.secrets;
         job.name in secrets && secrets[job.name] == Upload(job, s.c.read.value)
  }

  lemma {:induction false} RecordsAreTrue(job: Job, w: World, labels: seq<Label>)
    ensures ReadWasThere(job, w, labels) && RequestWasGone(job, w, labels) && SecretWasStored(job, w, labels)
  {
    if labels != [] {
      var n := |labels| - 1;
      RecordsAreTrue(job, w, labels[..n]);
      assert forall i :: 0 <= i <= n ==> labels[..n][..i] == labels[..i];
      assert labels[..n + 1] == labels;
      ReadStaysTrue(job, w, labels);
      GoneStaysTrue(job, w, labels);
      StoredStaysTrue(job, w, labels);
    }
  }

  lemma ReadStaysTrue(job: Job, w: World, labels: seq<Label>)
    requires labels != [] && ReadWasThere(job, w, labels[..|labels| - 1])
    ensures ReadWasThere(job, w, labels)
  {
    var n := |labels| - 1;
    var at := Run(job, w, labels[..n]).c.readAt;
    assert at <= n ==> labels[..n][..at] == labels[..at];
  }

  lemma GoneStaysTrue(job: Job, w: World, labels: seq<Label>)
    requires labels != []
    requires RequestWasGone(job, w, labels[..|labels| - 1]) && ReadWasThere(job, w, labels[..|labels| - 1])
    ensures RequestWasGone(job, w, labels)
  {
    var n := |labels| - 1;
    assert forall i :: 0 <= i <= n ==> labels[..n][..i] == labels[..i];
    assert labels[..n + 1] == labels;
  }

  lemma StoredStaysTrue(job: Job, w: World, labels: seq<Label>)
    requires labels != [] && SecretWasStored(job, w, labels[..|labels| - 1])
    requires RequestWasGone(job, w, labels[..|labels| - 1]) && ReadWasThere(job, w, labels[..|labels| - 1])
    ensures SecretWasStored(job, w, labels)
  {
    var n := |labels| - 1;
    assert forall i :: 0 <= i <= n ==> labels[..n][..i] == labels[..i];
    assert labels[..n + 1] == labels;
  }

  // What each call does.

  /** When the client's next call fails: an answer is missing that it needs, or the server refuses. */
  predicate CallFails(job: Job, s: State, f: Fault) {
    var csr, csrs, secrets := job.name.name + "-csr", s.w.csrs, s.w.secrets;
    match s.c.pc
    case Create => f == Broken || (f == Lost && csr !in csrs)
    case GetExisting => f != Fine || csr !in csrs
    case Approve => f != Fine || csr !in csrs || s.c.draft.None? || csrs[csr].version != s.c.draft.value.version
    case Wait => false
    case Remove => f == Broken || (f == Lost && csr in csrs)
    case UploadNew => f == Broken || (f == Lost && job.name !in secrets)
    case UploadOver => f != Fine || job.name !in secrets
    case ReadBack => f != Fine || job.name !in secrets
    case Done => false
    case Failed => false
  }

  /** And what comes after it when it does not. */
  function NextStage(job: Job, s: State, f: Fault): Pc {
    var csr, csrs := job.name.name + "-csr", s.w.csrs;
    match s.c.pc
    case Create => if csr in csrs then GetExisting else Approve
    case GetExisting => Approve
    case Approve => Wait
    case Wait =>
      if && f == Fine && csr in csrs
         && csrs[csr].conditions != [] && csrs[csr].conditions[0] == Approved && csrs[csr].certificate.SignedFor?
      then Remove else Wait
    case Remove => UploadNew
    case UploadNew => if job.name in s.w.secrets then UploadOver else ReadBack
    case UploadOver => ReadBack
    case ReadBack => Done
    case Done => Done
    case Failed => Failed
  }

  /** At every point of every run the next call leads where these say, and nobody else's action leads anywhere. */
  lemma CallLeadsTo(job: Job, w: World, labels: seq<Label>, f: Fault)
    requires WellFormed(w)
    ensures Run(job, w, labels + [Call(f)]).c.pc ==
              if CallFails(job, Run(job, w, labels), f) then Failed else NextStage(job, Run(job, w, labels), f)
    ensures forall a :: Run(job, w, labels + [Other(a)]).c == Run(job, w, labels).c
  {
    RunKeepsInv(job, w, labels);
    OneMore(job, w, labels, Call(f));
    forall a ensures Run(job, w, labels + [Other(a)]).c == Run(job, w, labels).c {
      OneMore(job, w, labels, Other(a));
    }
  }

  /** So a run has failed exactly when one of its calls did. */
  lemma {:induction false} FailsExactly(job: Job, w: World, labels: seq<Label>)
    requires WellFormed(w)
    ensures Run(job, w, labels).c.pc == Failed
       <==> exists n :: 0 <= n < |labels| && FailsThere(job, w, labels, n)
  {
    if labels != [] {
      var n := |labels| - 1;
      FailsExactly(job, w, labels[..n]);
      FailsAtLast(job, w, labels);
      forall i | 0 <= i < n ensures FailsThere(job, w, labels[..n], i) <==> FailsThere(job, w, labels, i) {
        assert labels[..n][..i] == labels[..i];
      }
    }
  }

  predicate FailsThere(job: Job, w: World, labels: seq<Label>, n: nat)
    requires n < |labels|
  {
    labels[n].Call? && CallFails(job, Run(job, w, labels[..n]), labels[n].f)
  }

  lemma FailsAtLast(job: Job, w: World, labels: seq<Label>)
    requires WellFormed(w) && labels != []
    ensures var n := |labels| - 1;
            Run(job, w, labels).c.pc == Failed <==>
              Run(job, w, labels[..n]).c.pc == Failed || FailsThere(job, w, labels, n)
  {
    var n := |labels| - 1;
    assert labels == labels[..n] + [labels[n]];
    match labels[n] {
      case Call(f) => CallLeadsTo(job, w, labels[..n], f);
      case Other(a) => OneMore(job, w, labels[..n], labels[n]);
    }
  }

  /** The draft is what the client has read; as long as the request has the draft's version it is the draft. */
  predicate DraftIsCurrent(job: Job, s: State) {
    s.c.pc == Approve ==>
      && s.c.draft.Some? && s.c.draft.value.version < s.w.clock
      && (job.CsrName() in s.w.csrs && s.w.csrs[job.CsrName()].version == s.c.draft.value.version ==>
            s.w.csrs[job.CsrName()] == s.c.draft.value)
  }

  lemma DraftStep(job: Job, s: State, l: Label, n: nat)
    requires WellFormed(s.w) && DraftIsCurrent(job, s)
    ensures DraftIsCurrent(job, Step(job, s, l, n))
  {
  }

  lemma {:induction false} DraftIsCurrentThroughout(job: Job, w: World, labels: seq<Label>)
    requires WellFormed(w)
    ensures DraftIsCurrent(job, Run(job, w, labels))
  {
    if labels != [] {
      var n := |labels| - 1;
      RunKeepsInv(job, w, labels[..n]);
      DraftIsCurrentThroughout(job, w, labels[..n]);
      DraftStep(job, Run(job, w, labels[..n]), labels[n], n);
    }
  }

  /** A creation that is carried out makes a request for the client's key, not yet approved or signed. */
  lemma CreationIsOwn(job: Job, w: World, labels: seq<Label>, f: Fault)
    requires var s := Run(job, w, labels); s.c.pc == Create && f != Broken && job.CsrName() !in s.w.csrs
    ensures var s, t := Run(job, w, labels), Run(job, w, labels + [Call(f)]);
            var csr := job.name.name + "-csr";
            csr in t.w.csrs && t.w.csrs[csr] == Csr(s.w.clock, s.w.clock, job.key, [], NoCertificate)
  {
    OneMore(job, w, labels, Call(f));
  }

  /** An approval that is carried out is appended to the conditions of that moment, and changes nothing else. */
  lemma ApprovalIsAppended(job: Job, w: World, labels: seq<Label>, f: Fault)
    requires var s := Run(job, w, labels);
             && WellFormed(w) && s.c.pc == Approve && f != Broken && !CallFails(job, s, Fine)
    ensures var s, t := Run(job, w, labels), Run(job, w, labels + [Call(f)]);
            var csr := job.name.name + "-csr";
            && csr in s.w.csrs && csr in t.w.csrs
            && t.w.csrs[csr] ==
                 s.w.csrs[csr].(conditions := s.w.csrs[csr].conditions + [Approved], version := s.w.clock)
  {
    DraftIsCurrentThroughout(job, w, labels);
    OneMore(job, w, labels, Call(f));
  }

  /** A call touches no other request and no other Secret, and the right ones only at their stages. */
  predicate TouchesOnlyItsOwn(job: Job, s: State, f: Fault, w: World) {
    var csr := job.name.name + "-csr";
    && w.csrs - {csr} == s.w.csrs - {csr}
    && w.secrets - {job.name} == s.w.secrets - {job.name}
    && (s.c.pc != Create && s.c.pc != Approve && s.c.pc != Remove ==> w.csrs == s.w.csrs)
    && (s.c.pc != UploadNew && s.c.pc != UploadOver ==> w.secrets == s.w.secrets)
    && (f == Broken ==> w == s.w)
    && (s.c.pc == Remove && f != Broken ==> csr !in w.csrs)
  }

  lemma RequestStagesTouchOnlyTheirs(job: Job, s: State, f: Fault, n: nat)
    requires Rank(s.c.pc) <= Rank(Remove)
    ensures TouchesOnlyItsOwn(job, s, f, ClientStep(job, s, f, n).w)
  {
  }

  lemma UploadStagesTouchOnlyTheirs(job: Job, s: State, f: Fault, n: nat)
    requires Rank(s.c.pc) > Rank(Remove)
    ensures TouchesOnlyItsOwn(job, s, f, ClientStep(job, s, f, n).w)
  {
  }

  lemma CallTouchesOnlyItsOwn(job: Job, w: World, labels: seq<Label>, f: Fault)
    ensures TouchesOnlyItsOwn(job, Run(job, w, labels), f, Run(job, w, labels + [Call(f)]).w)
  {
    OneMore(job, w, labels, Call(f));
    if Rank(Run(job, w, labels).c.pc) <= Rank(Remove) {
      RequestStagesTouchOnlyTheirs(job, Run(job, w, labels), f, |labels|);
    } else {
      UploadStagesTouchOnlyTheirs(job, Run(job, w, labels), f, |labels|);
    }
  }

  // What every successful run has achieved, whatever the others did.

  /** The certificate was read from a request of the right name that was approved first and signed. */
  lemma CertificateWasIssued(job: Job, w: World, labels: seq<Label>)
    requires WellFormed(w) && Run(job, w, labels).c.pc == Done
    ensures var c := Run(job, w, labels).c;
            && c.read.Some? && c.readAt < |labels|
            && c.read.value.conditions != [] && c.read.value.conditions[0] == Approved
            && c.read.value.certificate.SignedFor?
            && var csrs := Run(job, w, labels[..c.readAt]).w.csrs;
               job.CsrName() in csrs && csrs[job.CsrName()] == c.read.value
  {
    RunKeepsInv(job, w, labels);
    RecordsAreTrue(job, w, labels);
  }

  /** After that a moment came at which no request of that name was left. */
  lemma RequestWasRemoved(job: Job, w: World, labels: seq<Label>)
    requires Run(job, w, labels).c.pc == Done
    ensures var c := Run(job, w, labels).c;
            && c.readAt < c.goneAt <= |labels|
            && job.CsrName() !in Run(job, w, labels[..c.goneAt]).w.csrs
  {
    RecordsAreTrue(job, w, labels);
  }

  /** After that the Secret of the right name held that certificate, together with the client's own key. */
  lemma SecretWasUploaded(job: Job, w: World, labels: seq<Label>)
    requires WellFormed(w) && Run(job, w, labels).c.pc == Done
    ensures var c := Run(job, w, labels).c;
            && c.read.Some? && c.goneAt < c.storedAt <= |labels|
            && var secrets := Run(job, w, labels[..c.storedAt]).w.secrets;
               && job.name in secrets
               && secrets[job.name] ==
                    Secret(job.name, "kubernetes.io/tls", TLS(SignedFor(c.read.value.request), job.key))
  {
    RunKeepsInv(job, w, labels);
    RecordsAreTrue(job, w, labels);
  }

  /** When the request that was read is the one this call created, the certificate is for the key stored beside it,
      whatever else happened; in general it is for the key which that request asked for. */
  lemma CertificateFitsKey(job: Job, w: World, labels: seq<Label>)
    requires WellFormed(w) && Run(job, w, labels).c.pc == Done
    ensures var c := Run(job, w, labels).c;
            && c.read.Some?
            && (Upload(job, c.read.value).payload == TLS(SignedFor(job.key), job.key)
                <==> c.read.value.request == job.key)
            && (c.created == Some(c.read.value.uid) ==>
                  Upload(job, c.read.value).payload == TLS(SignedFor(job.key), job.key))
  {
    RunKeepsInv(job, w, labels);
  }

  lemma OneMore(job: Job, w: World, labels: seq<Label>, l: Label)
    ensures Run(job, w, labels + [l]) == Step(job, Run(job, w, labels), l, |labels|)
  {
    assert (labels + [l])[..|labels|] == labels;
  }

  // Leaving the waiting loop.

  /** A step that lets the loop end: a readable snapshot with the approval first and a certificate. */
  predicate LetsGo(job: Job, w: World, l: Label) {
    && l == Call(Fine) && job.CsrName() in w.csrs
    && var csr := w.csrs[job.CsrName()];
       csr.conditions != [] && csr.conditions[0] == Approved && csr.certificate.SignedFor?
  }

  /** None of the steps from the k-th on was one. */
  predicate NeverReady(job: Job, w: World, labels: seq<Label>, k: nat) {
    |labels| > k ==>
      var n := |labels| - 1;
      !LetsGo(job, Run(job, w, labels[..n]).w, labels[n]) && NeverReady(job, w, labels[..n], k)
  }

  lemma WaitingStep(job: Job, s: State, l: Label, n: nat)
    ensures s.c.pc == Wait ==> (Step(job, s, l, n).c.pc == if LetsGo(job, s.w, l) then Remove else Wait)
    ensures Rank(s.c.pc) > Rank(Wait) ==> Rank(Step(job, s, l, n).c.pc) > Rank(Wait)
  {
  }

  /** A client that waits after k steps still waits at the end exactly when no snapshot it read was ready. */
  lemma {:induction false} WaitsExactlyUntilReady(job: Job, w: World, labels: seq<Label>, k: nat)
    requires k <= |labels| && Run(job, w, labels[..k]).c.pc == Wait
    ensures Run(job, w, labels).c.pc == Wait <==> NeverReady(job, w, labels, k)
    ensures Rank(Run(job, w, labels).c.pc) >= Rank(Wait)
  {
    if k == |labels| {
      assert labels[..k] == labels;
    } else {
      var n := |labels| - 1;
      assert labels[..n][..k] == labels[..k];
      WaitsExactlyUntilReady(job, w, labels[..n], k);
      WaitingStep(job, Run(job, w, labels[..n]), labels[n], n);
    }
  }

  /** From a ready snapshot on, four undisturbed calls finish the request, or five when the Secret exists already. */
  lemma FinishesUndisturbed(job: Job, w: World, labels: seq<Label>)
    requires var s := Run(job, w, labels); s.c.pc == Wait && LetsGo(job, s.w, Call(Fine))
    ensures var s := Run(job, w, labels);
            var go := Call(Fine);
            var rest := if job.name in s.w.secrets then [go, go, go, go, go] else [go, go, go, go];
            var t := Run(job, w, labels + rest);
            && t.c.pc == Done
            && t.c.read == Some(s.w.csrs[job.CsrName()]) && t.c.created == s.c.created
  {
    var s, go := Run(job, w, labels), Call(Fine);
    OneMore(job, w, labels, go);
    OneMore(job, w, labels + [go], go);
    OneMore(job, w, labels + [go] + [go], go);
    OneMore(job, w, labels + [go] + [go] + [go], go);
    assert labels + [go] + [go] + [go] + [go] == labels + [go, go, go, go];
    if job.name in s.w.secrets {
      OneMore(job, w, labels + [go] + [go] + [go] + [go], go);
      assert labels + [go] + [go] + [go] + [go] + [go] == labels + [go, go, go, go, go];
    }
  }

  // Getting to a ready snapshot.

  /** Without a request of that name, two answered calls create and approve one for the client's key. */
  lemma SubmitsNew(job: Job, w: World)
    requires job.CsrName() !in w.csrs
    ensures var s := Run(job, w, [Call(Fine)] + [Call(Fine)]);
            && s.c.pc == Wait && s.c.created.Some?
            && job.CsrName() in s.w.csrs
            && s.w.csrs[job.CsrName()].request == job.key && s.w.csrs[job.CsrName()].conditions == [Approved]
  {
    var go := Call(Fine);
    assert [] + [go] == [go] && [] + [Approved] == [Approved];
    OneMore(job, w, [], go);
    OneMore(job, w, [go], go);
  }

  /** With one, three answered calls find it and append the approval. */
  lemma SubmitsExisting(job: Job, w: World)
    requires job.CsrName() in w.csrs
    ensures var s := Run(job, w, [Call(Fine)] + [Call(Fine)] + [Call(Fine)]);
            var csr := w.csrs[job.CsrName()];
            && s.c.pc == Wait && s.c.created.None?
            && job.CsrName() in s.w.csrs
            && s.w.csrs[job.CsrName()].request == csr.request
            && s.w.csrs[job.CsrName()].conditions == csr.conditions + [Approved]
  {
    var go := Call(Fine);
    assert [] + [go] == [go];
    OneMore(job, w, [], go);
    OneMore(job, w, [go], go);
    OneMore(job, w, [go] + [go], go);
  }

  lemma BecomesReady(job: Job, w: World, labels: seq<Label>)
    requires var s := Run(job, w, labels);
             && s.c.pc == Wait && job.CsrName() in s.w.csrs
             && var conditions := s.w.csrs[job.CsrName()].conditions; |conditions| > 0 && conditions[0] == Approved
    ensures var s := Run(job, w, labels);
            var t := Run(job, w, labels + [Other(Sign(job.CsrName()))]);
            && t.c == s.c && LetsGo(job, t.w, Call(Fine))
            && t.w.csrs[job.CsrName()].request == s.w.csrs[job.CsrName()].request
  {
    OneMore(job, w, labels, Other(Sign(job.CsrName())));
  }

  /** A steady label: an answered call, or the signer's turn. */
  predicate Steady(job: Job, l: Label) {
    l == Call(Fine) || l == Other(Sign(job.CsrName()))
  }

  /** From an approved request on, signing and going on leads to the end. */
  lemma FinishesApproved(job: Job, w: World, labels: seq<Label>) returns (rest: seq<Label>)
    requires var s := Run(job, w, labels);
             && s.c.pc == Wait && job.CsrName() in s.w.csrs
             && var conditions := s.w.csrs[job.CsrName()].conditions; |conditions| > 0 && conditions[0] == Approved
    ensures forall l :: l in rest ==> Steady(job, l)
    ensures var s, t := Run(job, w, labels), Run(job, w, labels + rest);
            && t.c.pc == Done && t.c.created == s.c.created
            && t.c.read.Some? && t.c.read.value.request == s.w.csrs[job.CsrName()].request
  {
    var go, sign := Call(Fine), Other(Sign(job.CsrName()));
    BecomesReady(job, w, labels);
    FinishesUndisturbed(job, w, labels + [sign]);
    rest := if job.name in Run(job, w, labels + [sign]).w.secrets then [go, go, go, go, go] else [go, go, go, go];
    assert labels + [sign] + rest == labels + ([sign] + rest);
    rest := [sign] + rest;
  }

  /** Unless another first condition is in the way, create or get, approve, sign and go on leads to the end. */
  lemma FinishesFromTheStart(job: Job, w: World) returns (labels: seq<Label>)
    requires job.CsrName() in w.csrs ==> !FirstIsNotApproved(w.csrs[job.CsrName()])
    ensures forall l :: l in labels ==> Steady(job, l)
    ensures var c := Run(job, w, labels).c;
            && c.pc == Done && c.read.Some? && (c.created.Some? <==> job.CsrName() !in w.csrs)
            && c.read.value.request == if job.CsrName() in w.csrs then w.csrs[job.CsrName()].request else job.key
  {
    var go := Call(Fine);
    if job.CsrName() in w.csrs {
      SubmitsExisting(job, w);
      labels := [go] + [go] + [go];
    } else {
      SubmitsNew(job, w);
      labels := [go] + [go];
    }
    var rest := FinishesApproved(job, w, labels);
    labels := labels + rest;
  }

  // Being stuck behind an older condition.

  /** Actions that leave the request of that name and its conditions alone. */
  predicate KeepsConditions(l: Label, csr: string) {
    match l
    case Other(SetConditions(n, _)) => n != csr
    case Other(DeleteCsr(n)) => n != csr
    case _ => true
  }

  predicate FirstIsNotApproved(csr: Csr) {
    |csr.conditions| > 0 && csr.conditions[0] != Approved
  }

  /** When a request of that name already has some other first condition and nobody takes it away, no run ever leaves
      the loop, although the approval has been appended. */
  lemma {:induction false} StuckBehindOldCondition(job: Job, w: World, labels: seq<Label>)
    requires job.CsrName() in w.csrs && FirstIsNotApproved(w.csrs[job.CsrName()])
    requires forall i :: 0 <= i < |labels| ==> KeepsConditions(labels[i], job.CsrName())
    ensures var s := Run(job, w, labels);
            && (Rank(s.c.pc) <= Rank(Wait) || s.c.pc == Failed)
            && job.CsrName() in s.w.csrs && FirstIsNotApproved(s.w.csrs[job.CsrName()])
            && (s.c.draft.Some? ==> FirstIsNotApproved(s.c.draft.value))
  {
    if labels != [] {
      var n := |labels| - 1;
      StuckBehindOldCondition(job, w, labels[..n]);
      var s := Run(job, w, labels[..n]);
      assert KeepsConditions(labels[n], job.CsrName());
      if s.c.pc == Approve && s.c.draft.Some? {
        var d := s.c.draft.value;
        assert (d.conditions + [Approved])[0] == d.conditions[0];
      }
    }
  }

  /** So a request can be finished at all, if nobody takes the older one away, exactly when no request of that name
      with another first condition is there at the start. */
  lemma StuckExactlyBehindOldCondition(job: Job, w: World)
    ensures (forall labels :: (forall l :: l in labels ==> KeepsConditions(l, job.CsrName()))
               ==> Run(job, w, labels).c.pc != Done)
       <==> job.CsrName() in w.csrs && FirstIsNotApproved(w.csrs[job.CsrName()])
  {
    if job.CsrName() in w.csrs && FirstIsNotApproved(w.csrs[job.CsrName()]) {
      forall labels: seq<Label> | forall l :: l in labels ==> KeepsConditions(l, job.CsrName())
        ensures Run(job, w, labels).c.pc != Done
      {
        StuckBehindOldCondition(job, w, labels);
      }
    } else {
      var labels := FinishesFromTheStart(job, w);
      assert Run(job, w, labels).c.pc == Done;
    }
  }

  // When the certificate fits the key.

  /** The Secret that a finished run has uploaded holds a certificate for the key beside it. */
  predicate Fits(job: Job, s: State) {
    s.c.read.Some? && Upload(job, s.c.read.value).payload == TLS(SignedFor(job.key), job.key)
  }

  /** Nobody else creates or deletes a request of that name; conditions and signatures are free. */
  predicate LeavesRequest(l: Label, csr: string) {
    match l
    case Other(CreateCsr(n, _)) => n != csr
    case Other(DeleteCsr(n)) => n != csr
    case _ => true
  }

  predicate AllLeaveRequest(labels: seq<Label>, csr: string) {
    forall l :: l in labels ==> LeavesRequest(l, csr)
  }

  /** Whatever request of that name is there, or has been read, asks for the client's key. */
  predicate OnlyOwnKey(job: Job, s: State) {
    && (job.CsrName() in s.w.csrs ==> s.w.csrs[job.CsrName()].request == job.key)
    && (s.c.read.Some? ==> s.c.read.value.request == job.key)
  }

  lemma OwnKeyStep(job: Job, s: State, l: Label, n: nat)
    requires OnlyOwnKey(job, s) && LeavesRequest(l, job.CsrName())
    ensures OnlyOwnKey(job, Step(job, s, l, n))
  {
  }

  lemma {:induction false} OwnKeyThroughout(job: Job, w: World, labels: seq<Label>)
    requires OnlyOwnKey(job, Start(w))
    requires AllLeaveRequest(labels, job.CsrName())
    ensures OnlyOwnKey(job, Run(job, w, labels))
  {
    if labels != [] {
      var n := |labels| - 1;
      OwnKeyThroughout(job, w, labels[..n]);
      OwnKeyStep(job, Run(job, w, labels[..n]), labels[n], n);
    }
  }

  /** As long as nobody else creates or deletes the request, every run that finishes uploads a certificate that fits
      exactly when the name is free at the start, or taken by a request for the very same key.  The key being new,
      this means that the branch for AlreadyExists is never right. */
  lemma CertificateFitsExactly(job: Job, w: World)
    requires WellFormed(w)
    ensures (forall labels :: AllLeaveRequest(labels, job.CsrName()) && Run(job, w, labels).c.pc == Done
               ==> Fits(job, Run(job, w, labels)))
       <==> (job.CsrName() in w.csrs ==> w.csrs[job.CsrName()].request == job.key)
  {
    if job.CsrName() in w.csrs ==> w.csrs[job.CsrName()].request == job.key {
      forall labels | AllLeaveRequest(labels, job.CsrName()) && Run(job, w, labels).c.pc == Done
        ensures Fits(job, Run(job, w, labels))
      {
        OwnKeyThroughout(job, w, labels);
        RunKeepsInv(job, w, labels);
      }
    } else {
      var labels := FinishesWithOldRequest(job, w);
      RunKeepsInv(job, w, labels);
      assert !Fits(job, Run(job, w, labels));
    }
  }

  /** An old request can always be made ready and used, by setting its conditions if need be. */
  lemma FinishesWithOldRequest(job: Job, w: World) returns (labels: seq<Label>)
    requires job.CsrName() in w.csrs
    ensures AllLeaveRequest(labels, job.CsrName())
    ensures var c := Run(job, w, labels).c;
            c.pc == Done && c.read.Some? && c.read.value.request == w.csrs[job.CsrName()].request && c.created.None?
  {
    var go, approve := Call(Fine), Other(SetConditions(job.CsrName(), [Approved]));
    SubmitsExisting(job, w);
    labels := [go] + [go] + [go];
    OneMore(job, w, labels, approve);
    labels := labels + [approve];
    var rest := FinishesApproved(job, w, labels);
    labels := labels + rest;
  }

  // Two ways to end up with a certificate for another key.

  predicate Misfit(job: Job, w: World, labels: seq<Label>) {
    Run(job, w, labels).c.pc == Done && Run(job, w, labels).c.read.Some? && !Fits(job, Run(job, w, labels))
  }

  /** The request of an earlier attempt, made with another key, is still there, and gets approved and signed. */
  lemma OldRequestMisfits(name: NamespacedName, key: KeyId, oldKey: KeyId)
    requires key != oldKey
    ensures exists w, labels :: WellFormed(w) && Misfit(Job(name, key), w, labels)
                             && Run(Job(name, key), w, labels).c.created.None?
  {
    var job := Job(name, key);
    var w := PutCsr(World(map[], map[], 0), job.CsrName(), Csr(0, 0, oldKey, [], NoCertificate));
    var labels := FinishesFromTheStart(job, w);
    RunKeepsInv(job, w, labels);
    assert WellFormed(w) && Misfit(job, w, labels);
  }

  /** The client's own request is replaced by somebody else's, which is approved and signed in its place. */
  lemma ReplacedRequestMisfits(name: NamespacedName, key: KeyId, otherKey: KeyId)
    requires key != otherKey
    ensures exists w, labels :: WellFormed(w) && Misfit(Job(name, key), w, labels)
                             && Run(Job(name, key), w, labels).c.created.Some?
  {
    var job, w := Job(name, key), World(map[], map[], 0);
    var labels := Replacement(job, otherKey);
    ReplacedRequestIsTaken(job, w, otherKey);
    var rest := FinishesApproved(job, w, labels);
    RunKeepsInv(job, w, labels + rest);
    assert WellFormed(w) && Misfit(job, w, labels + rest);
  }

  function Replacement(job: Job, otherKey: KeyId): seq<Label> {
    var csr := job.CsrName();
    [Call(Fine)] + [Call(Fine)] + [Other(DeleteCsr(csr))] + [Other(CreateCsr(csr, otherKey))]
    + [Other(SetConditions(csr, [Approved]))]
  }

  lemma ReplacedRequestIsTaken(job: Job, w: World, otherKey: KeyId)
    requires job.CsrName() !in w.csrs
    ensures var s := Run(job, w, Replacement(job, otherKey));
            && s.c.pc == Wait && s.c.created.Some?
            && job.CsrName() in s.w.csrs
            && s.w.csrs[job.CsrName()].request == otherKey && s.w.csrs[job.CsrName()].conditions == [Approved]
  {
    var csr, go := job.CsrName(), Call(Fine);
    var a, b, c := Other(DeleteCsr(csr)), Other(CreateCsr(csr, otherKey)), Other(SetConditions(csr, [Approved]));
    SubmitsNew(job, w);
    OneMore(job, w, [go] + [go], a);
    OneMore(job, w, [go] + [go] + [a], b);
    OneMore(job, w, [go] + [go] + [a] + [b], c);
  }

  // Trying again after a failure.

  /** The call at which the client failed, and that call's fault. */
  function Cause(job: Job, w: World, labels: seq<Label>): Option<(Pc, Fault)> {
    if labels == [] then None
    else
      var n := |labels| - 1;
      NextCause(job, Run(job, w, labels[..n]), Cause(job, w, labels[..n]), labels[n], n)
  }

  function NextCause(job: Job, s: State, cause: Option<(Pc, Fault)>, l: Label, n: nat): Option<(Pc, Fault)> {
    if l.Call? && s.c.pc != Failed && Step(job, s, l, n).c.pc == Failed then Some((s.c.pc, l.f)) else cause
  }

  /** The failures that leave the client's own request behind: the answer to its creation got lost, its approval
      failed, or its removal was not carried out. */
  predicate LeavesOwn(cause: (Pc, Fault)) {
    || cause == (Create, Lost)
    || cause.0 == Approve
    || cause == (Remove, Broken)
  }

  /** From a free name, and with nobody else creating or deleting: where the client's own request is. */
  predicate OwnIsThere(job: Job, s: State, cause: Option<(Pc, Fault)>) {
    && s.c.pc != GetExisting
    && (s.c.pc == Failed ==> cause.Some?)
    && (job.CsrName() in s.w.csrs <==>
          if s.c.pc == Failed then LeavesOwn(cause.value) else s.c.pc in {Approve, Wait, Remove})
    && (s.c.pc == Approve ==> s.c.draft.Some?)
  }

  lemma OwnIsThereStep(job: Job, s: State, cause: Option<(Pc, Fault)>, l: Label, n: nat)
    requires OwnIsThere(job, s, cause) && LeavesRequest(l, job.CsrName())
    ensures OwnIsThere(job, Step(job, s, l, n), NextCause(job, s, cause, l, n))
  {
  }

  lemma {:induction false} OwnIsThereThroughout(job: Job, w: World, labels: seq<Label>)
    requires job.CsrName() !in w.csrs && AllLeaveRequest(labels, job.CsrName())
    ensures OwnIsThere(job, Run(job, w, labels), Cause(job, w, labels))
  {
    if labels != [] {
      var n := |labels| - 1;
      OwnIsThereThroughout(job, w, labels[..n]);
      OwnIsThereStep(job, Run(job, w, labels[..n]), Cause(job, w, labels[..n]), labels[n], n);
    }
  }

  /** A failed run leaves a request of that name behind, which is its own, exactly after one of those failures. */
  lemma AbandonsExactly(job: Job, w: World, labels: seq<Label>)
    requires job.CsrName() !in w.csrs && AllLeaveRequest(labels, job.CsrName())
    requires Run(job, w, labels).c.pc == Failed
    ensures var csrs := Run(job, w, labels).w.csrs;
            && Cause(job, w, labels).Some?
            && (job.CsrName() in csrs <==> LeavesOwn(Cause(job, w, labels).value))
            && (job.CsrName() in csrs ==> csrs[job.CsrName()].request == job.key)
  {
    OwnIsThereThroughout(job, w, labels);
    OwnKeyThroughout(job, w, labels);
  }

  /** The request that is there, or has been read, asks for the key `older`. */
  predicate OldKeyOnly(job: Job, older: KeyId, s: State) {
    && (Rank(s.c.pc) <= Rank(Remove) ==> job.CsrName() in s.w.csrs && s.w.csrs[job.CsrName()].request == older)
    && (s.c.read.Some? ==> s.c.read.value.request == older)
  }

  lemma OldKeyStep(job: Job, older: KeyId, s: State, l: Label, n: nat)
    requires OldKeyOnly(job, older, s) && LeavesRequest(l, job.CsrName())
    ensures OldKeyOnly(job, older, Step(job, s, l, n))
  {
  }

  /** A run that starts with an older request has no other to read. */
  lemma {:induction false} OldKeyThroughout(job: Job, w: World, labels: seq<Label>)
    requires job.CsrName() in w.csrs && AllLeaveRequest(labels, job.CsrName())
    ensures OldKeyOnly(job, w.csrs[job.CsrName()].request, Run(job, w, labels))
  {
    if labels != [] {
      var n := |labels| - 1;
      OldKeyThroughout(job, w, labels[..n]);
      OldKeyStep(job, w.csrs[job.CsrName()].request, Run(job, w, labels[..n]), labels[n], n);
    }
  }

  /** So the request read is the older one if there is one, and otherwise the client's own. */
  lemma ReadsWhatIsThere(job: Job, w: World, labels: seq<Label>)
    requires WellFormed(w) && AllLeaveRequest(labels, job.CsrName()) && Run(job, w, labels).c.pc == Done
    ensures var read := Run(job, w, labels).c.read;
            && read.Some?
            && read.value.request == (if job.CsrName() in w.csrs then w.csrs[job.CsrName()].request else job.key)
            && read.value.certificate == SignedFor(read.value.request)
  {
    RunKeepsInv(job, w, labels);
    if job.CsrName() in w.csrs {
      OldKeyThroughout(job, w, labels);
    } else {
      OwnKeyThroughout(job, w, labels);
    }
  }

  /** When a request has failed and is made again with a new key, every second run that finishes uploads a fitting
      certificate exactly when the first one did not leave its request behind. */
  lemma RetryFitsExactly(name: NamespacedName, key: KeyId, newKey: KeyId, w: World, labels: seq<Label>,
                         again: seq<Label>)
    requires var job := Job(name, key);
             && WellFormed(w) && job.CsrName() !in w.csrs && AllLeaveRequest(labels, job.CsrName())
             && Run(job, w, labels).c.pc == Failed
    requires var retry := Job(name, newKey);
             && newKey != key && AllLeaveRequest(again, retry.CsrName())
             && Run(retry, Run(Job(name, key), w, labels).w, again).c.pc == Done
    ensures var retry, cause := Job(name, newKey), Cause(Job(name, key), w, labels);
            && cause.Some?
            && (Fits(retry, Run(retry, Run(Job(name, key), w, labels).w, again)) <==> !LeavesOwn(cause.value))
  {
    var between := Run(Job(name, key), w, labels).w;
    RunKeepsInv(Job(name, key), w, labels);
    AbandonsExactly(Job(name, key), w, labels);
    ReadsWhatIsThere(Job(name, newKey), between, again);
  }

  /** Nobody but the program and the signer acts. */
  predicate OnlySigner(labels: seq<Label>) {
    forall l :: l in labels ==> l.Call? || l.a.Sign?
  }

  predicate AllApproved(conditions: seq<Condition>) {
    forall c :: c in conditions ==> c == Approved
  }

  predicate OnlyApprovals(job: Job, s: State) {
    && (job.CsrName() in s.w.csrs ==> AllApproved(s.w.csrs[job.CsrName()].conditions))
    && (s.c.draft.Some? ==> AllApproved(s.c.draft.value.conditions))
  }

  lemma ApprovalsStep(job: Job, s: State, l: Label, n: nat)
    requires OnlyApprovals(job, s) && (l.Call? || l.a.Sign?)
    ensures OnlyApprovals(job, Step(job, s, l, n))
  {
  }

  lemma {:induction false} OnlyApprovalsThroughout(job: Job, w: World, labels: seq<Label>)
    requires job.CsrName() !in w.csrs && OnlySigner(labels)
    ensures OnlyApprovals(job, Run(job, w, labels))
  {
    if labels != [] {
      var n := |labels| - 1;
      OnlyApprovalsThroughout(job, w, labels[..n]);
      assert labels[n] in labels;
      ApprovalsStep(job, Run(job, w, labels[..n]), labels[n], n);
    }
  }

  /** It takes nobody else to get a wrong certificate: after each of those failures the program and the signer alone
      can finish a second run, with a certificate for the first run's key. */
  lemma RetryAloneMisfits(name: NamespacedName, key: KeyId, newKey: KeyId, w: World, labels: seq<Label>)
    requires var job := Job(name, key);
             && WellFormed(w) && job.CsrName() !in w.csrs && OnlySigner(labels) && newKey != key
             && Run(job, w, labels).c.pc == Failed
             && Cause(job, w, labels).Some? && LeavesOwn(Cause(job, w, labels).value)
    ensures exists again :: OnlySigner(again) && Misfit(Job(name, newKey), Run(Job(name, key), w, labels).w, again)
  {
    var job, retry := Job(name, key), Job(name, newKey);
    var between := Run(job, w, labels).w;
    RunKeepsInv(job, w, labels);
    AbandonsExactly(job, w, labels);
    OnlyApprovalsThroughout(job, w, labels);
    var conditions := between.csrs[job.CsrName()].conditions;
    assert |conditions| > 0 ==> conditions[0] in conditions;
    var again := FinishesFromTheStart(retry, between);
    RunKeepsInv(retry, between, again);
    assert OnlySigner(again) && Misfit(retry, between, again);
  }

  // Failing.

  /** Actions on other requests and other Secrets. */
  predicate Elsewhere(job: Job, a: Action) {
    match a
    case Sign(n) => n != job.CsrName()
    case SetConditions(n, _) => n != job.CsrName()
    case CreateCsr(n, _) => n != job.CsrName()
    case DeleteCsr(n) => n != job.CsrName()
    case WriteSecret(secret) => secret.name != job.name
    case DeleteSecret(n) => n != job.name
  }

  /** Every call is answered, and the others leave the request and the Secret alone, but for the signer, who may sign
      the request once it has been approved. */
  predicate Smooth(job: Job, w: World, labels: seq<Label>) {
    labels != [] ==>
      var n := |labels| - 1;
      Smooth(job, w, labels[..n]) && Harmless(job, Run(job, w, labels[..n]), labels[n])
  }

  predicate Harmless(job: Job, s: State, l: Label) {
    match l
    case Call(f) => f == Fine
    case Other(a) => Elsewhere(job, a) || (a == Sign(job.CsrName()) && Rank(s.c.pc) >= Rank(Wait))
  }

  predicate OnCourse(job: Job, s: State) {
    var csr := job.CsrName();
    && s.c.pc != Failed
    && (s.c.pc == GetExisting ==> csr in s.w.csrs)
    && (s.c.pc == Approve ==> csr in s.w.csrs && s.c.draft.Some? && s.c.draft.value.version == s.w.csrs[csr].version)
    && (s.c.pc == UploadOver || s.c.pc == ReadBack ==> job.name in s.w.secrets)
  }

  lemma HarmlessStep(job: Job, s: State, l: Label, n: nat)
    requires OnCourse(job, s) && Harmless(job, s, l)
    ensures OnCourse(job, Step(job, s, l, n))
  {
  }

  /** A smooth run never fails. */
  lemma {:induction false} SmoothRunsDoNotFail(job: Job, w: World, labels: seq<Label>)
    requires Smooth(job, w, labels)
    ensures OnCourse(job, Run(job, w, labels))
  {
    if labels != [] {
      var n := |labels| - 1;
      SmoothRunsDoNotFail(job, w, labels[..n]);
      HarmlessStep(job, Run(job, w, labels[..n]), labels[n], n);
    }
  }
}

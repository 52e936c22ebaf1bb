# A verified model of kubic-init's loaders, certificates, passwords and configuration

kubic-init bootstraps a Kubernetes node. This project models, in Dafny 4.11, the parts of it that keep state or carry an
algorithm, and proves what they promise for all inputs, all orders in which Go may walk a map, all answers of the API
server and all interleavings with other writers.

| file | models |
|---|---|
| `ApiServer.dfy` | one abstract API server: versioned objects, a log of this program's writes and discovery calls, other writers that act before each call, calls that fail or whose answer is lost |
| `Crds.dfy`, `CrdCreation.dfy`, `CrdDiscovery.dfy` | the CRD installer: reading directories, creating CRDs, polling discovery |
| `ManifestFiles.dfy`, `ManifestSources.dfy`, `Loader.dfy` | cutting manifest files into objects, the files and addresses in the manifest directories, and the three phases of installing all assets |
| `CsrProtocol.dfy`, `AutoCert.dfy` | the certificate request as a transition system with a signer and other parties, and the class that carries it out and caches its Secret |
| `Passwords.dfy` | shared passwords kept in Secrets |
| `CreateOrUpdate.dfy` | create-or-update of Pods, Jobs, Services and manifests |
| `Names.dfy`, `Lists.dfy`, `Base64.dfy`, `TemplateHelpers.dfy` | names, deduplication, base64, template helpers |
| `Seeder.dfy`, `Config.dfy` | the seeder's normal form, and loading the configuration over a deep copy of the defaults |

`dafny verify dfyconfig.toml` checks the whole project.

## How to read it

- A Go method that changes its receiver is a class with those fields; a loop is a loop. Each such method is proved
  against a specification function or predicate, and the lemmas say what that specification means.
- Nondeterminism is a havoc: the theorems hold for every choice. `Server.quiet` says that this program is the only
  writer, and `Server.faults` counts the calls that went wrong for reasons outside the program. Contracts about the final
  contents need `quiet`; the promise to succeed needs `quiet` and no new fault; contracts about the log need neither.
- `Server.before` is the store as the latest call found it, after the other writers' turn. For the record the server also
  keeps the creations asked for (`posts`) and what Gets have found (`answers`), so that contracts can speak of attempts and
  lookups where other writers leave nothing to be said of the store.
- There are two models of the API server. `ApiServer.Server` keeps objects of any one type, for everything but the
  certificates. `CsrProtocol.World`, which the class `AutoCerts.Cluster` holds, is for those: there others sign, approve,
  replace and remove requests in ways of their own, and what they did has to be on record.
- The CSR protocol is a fold of labels, each either an action of somebody else or the client's next call with its fault,
  so a statement about all label sequences is one about all interleavings. `AutoCert.Request` produces such a run.
- Keys and certificates are identities: `SignedFor(k)` is a certificate issued for the key `k`.
- Tables that Go keeps in maps are walked by repeatedly picking any remaining key.
- What a method is specified by is a function; what that function means is stated beside it without it, in lemmas named
  `...Exactly`: which files and which chunks count, which objects and CRDs a set of directories comes to, what each call of
  the protocol leads to, which Secret a password is in.

## What turned out false, and the exact condition

- Gluing two manifest files with `---` cuts into the chunks of both exactly when the first one's trailing dashes come in
  threes (`SplitOfConcatenation`). The same condition decides whether a file gives its objects and those of the other one
  whatever the other one is and whatever the decoders do (`ObjectsOfGluedFilesExactly`); otherwise an object can change
  (`GluingCanMoveADash`).
- Parsing a printed name gives the name back exactly when its namespace is nonempty and has no slash (`ParseUndoesPrint`);
  reparsing is stable exactly for texts that do not start with a slash (`ReparseIsStable`).
- Creating CRDs is independent of the order exactly when CRDs with the same name have the same spec, for lists
  (`OrderIndependence`), for the tables that Go walks (`TablesHaveOneOutcome`), and for the CRDs read from files, of which
  a later one replaces an earlier one of the same namespace and name (`ReadTablesHaveOneOutcome`). The table is keyed by
  namespace and name, the server by name alone (`NamespacesSeparateEntries`). A second run over a list is harmless already
  when CRDs with the same name have the same validation, and only then (`SecondRunChangesNothing`).
- The cached Secret agrees with the server exactly when the client library returns nil beside an error
  (`AgreementNeedsNil`); a client that returns an empty object makes the next call answer with it (`EmptyObjectIsAnswered`).
  `Delete` keeps the copy: it leaves agreement exactly when there is none, and a sequence of calls is sure to end in
  agreement exactly when each Delete that may have found a copy is followed by a Refresh (`DeleteKeepsTheCopy`).
- As long as nobody else creates or deletes the request, a finished run is sure to upload a certificate for the key beside
  it exactly when no request of that name is there at the start, or one for that very key (`CertificateFitsExactly`): the
  branch for AlreadyExists takes whatever it finds (`OldRequestMisfits`), and nothing notices a replacement
  (`ReplacedRequestMisfits`).
- A request that failed and is made again, with a new key as always, ends with a certificate for the old key exactly when
  the first call's creation lost its answer, its approval failed, or its removal was not carried out
  (`RetryFitsExactly`, `RetryTakesTheAbandoned`): then its request is still there (`AbandonsExactly`). No third party is
  needed for that (`RetryAloneMisfits`).
- As long as nobody takes an older request or its conditions away, a request can be finished at all exactly when there is
  none whose first condition is something else than the approval (`StuckExactlyBehindOldCondition`); otherwise the waiting
  loop goes on for ever, although the approval has been appended (`StuckBehindOldCondition`).
- The seeder's normal form is stable, and keeps the address, exactly when the host name does not start with `http`
  (`NormalizeIsIdempotent`, `PlainAddressIsKept`): such a name is taken for a URL and lost (`HTTPNamesAreLost`).
- An IPv6 address loses its brackets, so that its colons and the one before the port can no longer be told apart
  (`BracketsAreLost`).
- A password is kept in the Secret of its name in its namespace exactly when the namespace has no slash
  (`KeyIsNamespaceAndName`).
- Publishing passwords is independent of the map's order exactly when no two entries clash (`PublishingIsOrderIndependent`),
  and a loaded set never clashes (`LoadedHasNoClash`), whatever the namespace.
- URL-safe decoding is not injective (`DecodingIsNotInjective`); an accepted text is canonical exactly when it has no line
  break and drops no bits (`DecodeStringExact`).

Two places where the code and its own comments differ; the model follows the code. `ManifestsInstallOptions.ErrorIfPathMissing`
is said to make a missing path an error, but the search for files in a missing directory just finds none
(`pkg/loader/manifests.go:49`, `pkg/loader/loader.go:37`). `pkg/config/config.go:188` tests an error that `os.Stat` does not
set, so a missing configuration file is reported by the read that follows.

## Model

| member | source | states |
|---|---|---|
| `CrdDiscovery.Poller.Poll` | pkg/loader/crd.go:145-178 | one poll, in any order and with any answers: what remains is what was missing minus what successful fetches returned; true exactly when nothing is missing, early exit included; only group versions that miss something are fetched; full answers make it true |
| `CrdDiscovery.Poller.Visit` | pkg/loader/crd.go:153-176 | the loop body: an empty set loses its key, a failed fetch changes nothing, an answer removes exactly its names |
| `CrdDiscovery.GroupCRDs` | pkg/loader/crd.go:118-128 | one set of plurals per group version, whatever the order of the CRDs, and no set shared |
| `CrdDiscovery.WaitForCRDs` | pkg/loader/crd.go:117-133 | success means every CRD's plural was listed under its group and version; timing out means one was not, after one poll at once and one per tick, each with an answer that was not full; no group version is fetched once its set is empty |
| `CrdDiscovery.PollsChain` | pkg/loader/crd.go:130-133 | polls compose: the state after several is the required names minus all names seen |
| `CrdDiscovery.NothingOutstandingMeansObserved` | pkg/loader/crd.go:117-133 | nothing outstanding if and only if discovery has listed every CRD's plural under the CRD's own group and version |
| `CrdDiscovery.RequiredExactly` | pkg/loader/crd.go:118-128 | what is awaited under a group version are the plurals of the CRDs with that group and that version |
| `CrdDiscovery.SeenIsObserved` | pkg/loader/crd.go:162-172 | a name counts as seen if and only if an answer for that group version listed it |
| `CrdDiscovery.Progress` | pkg/loader/crd.go:162-175 | the amount outstanding never grows, and falls exactly when a fetch returns an awaited name |
| `CrdCreation.CreateCRDs` | pkg/loader/crd.go:181-213 | every visited CRD was written, as it is or its validation, and nothing else was, all of them on success; with no other writer the store is the old one with the visited CRDs applied |
| `CrdCreation.CreateOrUpdateCRD` | pkg/loader/crd.go:191-210 | at most one write, of this CRD, applied to the store as the latest call found it, whoever else writes: created whole, or only its validation updated |
| `CrdCreation.InstalledIsApplyAll` | pkg/loader/crd.go:188-212 | applying the CRDs is characterised without any order: each present with its validation, old ones otherwise unchanged, the rest untouched |
| `CrdCreation.OrderIndependence` | pkg/loader/crd.go:188-212 | the outcome is the same for every order and store if and only if CRDs of one name have one spec |
| `CrdCreation.TablesHaveOneOutcome` | pkg/loader/crd.go:188-212 | installing a table in any two orders gives the same store, for every store, if and only if entries of one name have one spec |
| `CrdCreation.ReadTablesHaveOneOutcome` | pkg/loader/crd.go:65-104 | the same for the CRDs of the files read: those that no later CRD of the same namespace and name replaces must agree by name |
| `CrdCreation.FilesHaveOneOutcome` | pkg/loader/crd.go:65-104 | and, names having no slash, these are the CRDs that no later one of the same namespace and name follows |
| `CrdCreation.SecondRunChangesNothing` | pkg/loader/crd.go:181-213 | a second pass over the same CRDs, in any order and on any server, leaves the store as it is if and only if CRDs of one name agree on the validation |
| `CrdCreation.FirstShapeLastValidation` | pkg/loader/crd.go:191-210 | of CRDs sharing a name, a new object gets the shape of the first and the validation of the last |
| `Crds.ReadCRDs` | pkg/loader/crd.go:216-252 | the CRDs of the whitelisted files in order; one unreadable or undecodable file is an error |
| `Crds.ReadCRDFiles` | pkg/loader/crd.go:87-104 | the table is the last-writer-wins fold over the first occurrences of the paths; missing ones are skipped unless that is an error |
| `Crds.OutcomeExactly` | pkg/loader/crd.go:216-252 | a file counts if its name ends in .json, .yaml or .yml; it breaks the reading if it cannot be read or decoded, and gives a CRD if that has a kind and a group |
| `Crds.CrdsOfExactly` | pkg/loader/crd.go:216-252 | reading files fails if and only if one breaks, and otherwise gives exactly the CRDs they hold |
| `Crds.CrdsOfConcatenation` | pkg/loader/crd.go:224-250 | in the order of the files |
| `Crds.TableComesFromFiles` | pkg/loader/crd.go:87-104 | reading directories fails if and only if one fails, a missing one only if that is an error; otherwise the table comes from the files and every CRD in them has an entry |
| `Crds.EntriesAreObjects` | pkg/util/names.go:81-86 | CRDs share an entry if and only if they agree in namespace and name |
| `Crds.TableIsTheLastOfEach` | pkg/loader/crd.go:98-100 | the table holds exactly the CRDs that no later one of the same namespace and name replaces |
| `Crds.ByNameTakesTheLast` | pkg/loader/crd.go:98-100 | an entry for exactly the printed names read, keyed by its own name and equal to the last CRD of that name |
| `Crds.NamespacesSeparateEntries` | pkg/loader/crd.go:98-100 | two CRDs of one name take one entry or two, according to whether their namespaces are equal |
| `Crds.UserDirectoryOverrides` | pkg/loader/loader.go:69-76 | a user directory that is not a packaged one overrides every packaged CRD of the same name |
| `Crds.RepeatedDirectoryKeepsItsRank` | pkg/loader/crd.go:90 | naming a packaged directory again has no effect |
| `Loader.UserCRDsWin` | pkg/loader/loader.go:69-76 | the same for the stock directory lists and the default user directory |
| `Loader.UserManifestsWin` | pkg/loader/loader.go:78-85 | an object with a manifest in the user's directory ends up with the last of these |
| `Loader.CRDsExactly` | pkg/loader/loader.go:69-76 | the CRDs installed are those in the stock directories and the given one, or the default if none is given |
| `Loader.ManifestsExactly` | pkg/loader/loader.go:78-85 | the manifests installed are exactly the objects that a local file or an address in one of these directories gives |
| `Loader.InstallCRDs` | pkg/loader/crd.go:65-84 | success means all CRDs read were applied, all of them written and after that seen in discovery; each failure has its cause |
| `ManifestSources.LoadFilesIn` | pkg/loader/loader.go:34-52 | the contents of the matching files in order, or an error if one cannot be read or the directory's name is a malformed pattern |
| `ManifestSources.ReadableExactly` | pkg/loader/loader.go:34-52 | a directory is not readable if and only if it has a .yaml or .url file that cannot be read |
| `ManifestSources.FilesInOrder` | pkg/loader/loader.go:44-51 | the texts come in the order of the files |
| `ManifestSources.DirectoryExactly` | pkg/loader/manifests.go:138-164 | first exactly the objects that the chunks of local .yaml files give, then exactly those of the texts behind the addresses in .url files |
| `ManifestSources.ObjectsInFilesInOrder` | pkg/loader/manifests.go:143-151 | local objects come file by file |
| `ManifestSources.ObjectsBehindURLsInOrder` | pkg/loader/manifests.go:158-166 | remote objects come address by address |
| `ManifestSources.DirectoriesExactly` | pkg/loader/manifests.go:133-166 | the objects of several directories are exactly those that one of them gives |
| `ManifestSources.DirectoriesInOrder` | pkg/loader/manifests.go:133-166 | directory by directory |
| `ManifestSources.TrimSpaceExactly` | pkg/loader/manifests.go:107 | an address is what is between the white space at both ends |
| `Loader.InstallObjects` | pkg/loader/manifests.go:144-149 | one attempt for every object, in order, whatever happened to the others; each asks for the creation of its object unless a fault came before, and with no other writer an object is left unwritten only for a fault |
| `Loader.InstallDirectory` | pkg/loader/manifests.go:138-164 | the local objects are attempted, then the remote ones; fails exactly when the files are not readable |
| `Loader.InstallManifests` | pkg/loader/manifests.go:132-168 | every object of every distinct directory is attempted, up to the first directory that is not readable, which is the only way to fail; with no other writer and no fault the store has them all applied in order |
| `Loader.ReplayOfAllWritten` | pkg/loader/manifests.go:144-149 | a log with one write per object leaves exactly what applying the objects in order does |
| `Loader.LastManifestWins` | pkg/client/utils.go:92-143 | of several manifests for one object the last decides its contents |
| `Loader.OthersAreKept` | pkg/client/utils.go:92-143 | an object that no manifest is for stays as it was |
| `ManifestSources.ObjectsUpToUnreadable` | pkg/loader/manifests.go:133-168 | a directory that is not readable ends the installation: no object of a later one is attempted |
| `Loader.InstallAllAssets` | pkg/loader/loader.go:55-88 | RBAC before any write, all CRDs written and after that discovered before any manifest write, a failing phase suppresses the later ones, success is success of all three, all manifests are attempted whatever happens to some of them, and with no other writer and no fault the store has the CRDs applied in some order and then the manifests in theirs |
| `Loader.AfterManifests` | pkg/loader/loader.go:65-85 | the order of the phases holds at every point of the log |
| `ManifestFiles.SplitIsSplit` | pkg/loader/manifests.go:56 | joining the chunks restores the text and each cut is the leftmost possible |
| `ManifestFiles.SplitIsUnique` | pkg/loader/manifests.go:56 | there is only one such cutting |
| `ManifestFiles.SplitOfConcatenation` | pkg/loader/manifests.go:56 | cutting respects gluing with a separator if and only if the trailing dashes of the first text come in threes |
| `ManifestFiles.GetUnstructuredInYAMLFile` | pkg/loader/manifests.go:53-103 | the objects of the chunks that pass every stage, in order |
| `ManifestFiles.ObjectOfExactly` | pkg/loader/manifests.go:57-100 | a chunk gives an object if and only if it is not empty, template, conversion and decoding succeed one after the other, and neither of the first two yields nothing |
| `ManifestFiles.ObjectsOfExactly` | pkg/loader/manifests.go:53-103 | a text's objects are exactly those its chunks give |
| `ManifestFiles.FailingChunkIsIsolated` | pkg/loader/manifests.go:57-100 | a failing chunk loses its own object only, and reorders nothing |
| `ManifestFiles.ObjectsOfGluedFiles` | pkg/loader/manifests.go:53-103 | if they do, glued files give the objects of the first followed by those of the second, of whatever type |
| `ManifestFiles.ObjectsOfGluedFilesExactly` | pkg/loader/manifests.go:53-103 | they do so for every second file and all decoders if and only if the trailing dashes of the first come in threes |
| `ManifestFiles.GluingCanMoveADash` | pkg/loader/manifests.go:56 | a concrete pair of files for which they do not |
| `CsrProtocol.RunKeepsInv` | pkg/crypto/service_cert.go:146-271 | after every run certificates fit their requests, and a request with the client's uid carries the client's key |
| `CsrProtocol.CallLeadsTo` | pkg/crypto/service_cert.go:195-270 | at every point of every run, when the next call fails and which call comes after it, in terms of the server's state, the draft's version and the fault |
| `CsrProtocol.FailsExactly` | pkg/crypto/service_cert.go:195-270 | a run has failed if and only if one of its calls did, a refused approval among them |
| `CsrProtocol.CreationIsOwn` | pkg/crypto/service_cert.go:195-196 | a creation makes a request for the client's key without conditions and certificate |
| `CsrProtocol.ApprovalIsAppended` | pkg/crypto/service_cert.go:208-219 | an approval is appended to the conditions of that moment and changes nothing else |
| `CsrProtocol.CallTouchesOnlyItsOwn` | pkg/crypto/service_cert.go:195-270 | no call touches another request or Secret, or its own at the wrong stage |
| `CsrProtocol.CertificateWasIssued` | pkg/crypto/service_cert.go:223-235 | a successful run read its certificate from a request of the right name, approved first and signed |
| `CsrProtocol.RequestWasRemoved` | pkg/crypto/service_cert.go:237-240 | later no request of that name was left |
| `CsrProtocol.SecretWasUploaded` | pkg/crypto/service_cert.go:252-264 | later the Secret of the right name held that certificate beside the client's key |
| `CsrProtocol.CertificateFitsKey` | pkg/crypto/service_cert.go:195-206 | whatever others do, the certificate is for the stored key when the request read is the one this run created; in general it is for the key of the request read |
| `CsrProtocol.CertificateFitsExactly` | pkg/crypto/service_cert.go:195-206 | with the request left to the client, every finished run uploads a fitting certificate if and only if the name is free at the start or taken for the same key |
| `CsrProtocol.OldRequestMisfits` | pkg/crypto/service_cert.go:197-203 | after AlreadyExists a successful run can store a certificate for another key |
| `CsrProtocol.ReplacedRequestMisfits` | pkg/crypto/service_cert.go:224-235 | so can a run whose own request is replaced |
| `CsrProtocol.AbandonsExactly` | pkg/crypto/service_cert.go:195-240 | a failed run that nobody else disturbs leaves its request behind if and only if it failed by a lost creation, in the approval, or by a removal that was not carried out |
| `CsrProtocol.RetryFitsExactly` | pkg/crypto/service_cert.go:146-206 | after a failed run, a second run with another key that finishes uploads a fitting certificate if and only if the first left no request behind |
| `CsrProtocol.RetryAloneMisfits` | pkg/crypto/service_cert.go:146-206 | if it did, the program and the signer alone can finish a second run with a certificate for the first run's key |
| `CsrProtocol.WaitsExactlyUntilReady` | pkg/crypto/service_cert.go:223-248 | the loop goes on if and only if no readable snapshot had the approval first and a certificate |
| `CsrProtocol.StuckBehindOldCondition` | pkg/crypto/service_cert.go:208-219 | behind another first condition no run leaves the loop, and the approval is never first |
| `CsrProtocol.StuckExactlyBehindOldCondition` | pkg/crypto/service_cert.go:208-235 | a start from which no run can finish is exactly one with such a request |
| `CsrProtocol.FinishesUndisturbed` | pkg/crypto/service_cert.go:224-270 | from a ready snapshot on, four or five undisturbed calls finish the request |
| `CsrProtocol.SmoothRunsDoNotFail` | pkg/crypto/service_cert.go:195-270 | with every call answered and nobody meddling but the signer, no run fails |
| `AutoCerts.AutoCert.Request` | pkg/crypto/service_cert.go:146-271 | the method is a run of the protocol; its result says how the run ended, and success fills the local copy |
| `AutoCerts.AutoCert.Submit` | pkg/crypto/service_cert.go:195-219 | create or take the existing request, and approve it |
| `AutoCerts.AutoCert.Await` | pkg/crypto/service_cert.go:223-248 | one look per round; the loop ends with a ready request or is still waiting after the last look |
| `AutoCerts.AutoCert.Publish` | pkg/crypto/service_cert.go:237-270 | remove, upload and read back, as steps of the same run |
| `AutoCerts.AutoCert.GetOrRequest` | pkg/crypto/service_cert.go:111-137 | the answer is the copy, or what is stored, or the outcome of a protocol run that follows a lookup without result; with the Secret undisturbed, the local copy, the stored Secret and the answer change in one of the listed ways |
| `AutoCerts.AutoCert.Refresh` | pkg/crypto/service_cert.go:140-143 | the same, after forgetting the copy, causes of failure included |
| `AutoCerts.RequestedIsPublished` | pkg/crypto/service_cert.go:124-131 | a certificate that a call has asked for was stored under the right name with the client's key, and is for that key if the request's name was free and left alone |
| `AutoCerts.RetryTakesTheAbandoned` | pkg/crypto/service_cert.go:111-137 | of two calls in a row, the first refused, the second returns a certificate for the first one's key or its own, according to what the first left behind |
| `AutoCerts.AutoCert.Delete` | pkg/crypto/service_cert.go:100-108 | the stored Secret goes, an absent one is no error, the local copy stays, and so agrees if and only if there is none |
| `AutoCerts.QuietRun` | pkg/crypto/service_cert.go:250-265 | if nobody else touches the Secret it is as before until the upload, and the uploaded one after it |
| `AutoCerts.CopyAgrees` | pkg/crypto/service_cert.go:111-143 | over any sequence of calls the copy agrees with the stored Secret, and each answer is what a fresh lookup gives |
| `AutoCerts.AgreementNeedsNil` | pkg/crypto/service_cert.go:120-131 | this holds for all sequences if and only if a failing Get returns nil |
| `AutoCerts.EmptyObjectIsAnswered` | pkg/crypto/service_cert.go:115-120 | a client that returns an empty object with its error gets that object as the next answer |
| `AutoCerts.DeleteKeepsTheCopy` | pkg/crypto/service_cert.go:100-108 | over sequences of Get, Refresh and Delete agreement is certain if and only if every Delete that may have found a copy is followed by a Refresh, even if only one given Secret ever turns up |
| `Passwords.RandStringRunes` | pkg/crypto/password.go:51-59 | the requested length, letters and digits only |
| `Passwords.RunesAreAlphanumeric` | pkg/crypto/password.go:52 | the alphabet is exactly the letters and digits |
| `Passwords.SharedPassword.Rand` | pkg/crypto/password.go:70-76 | sixteen characters when asked for none |
| `Passwords.SharedPassword.GetFromSecret` | pkg/crypto/password.go:108-116 | the stored contents on success, the old contents on failure |
| `Passwords.NewSharedPasswordsSet` | pkg/crypto/password.go:143-168 | exactly the requested names, each looked up once, in its own Secret; each entry has the contents its last lookup found, or random ones if there were none, whoever else writes; nothing is written |
| `Passwords.KeyIsNamespaceAndName` | pkg/crypto/password.go:78-99 | a password's Secret is called like it, is in its namespace and holds it under its name, if and only if the namespace has no slash |
| `Passwords.LoadedFromItsSecret` | pkg/crypto/password.go:109-116 | each entry has what that Secret holds under the name, or a random password of sixteen characters if there is none |
| `Passwords.CreateOrUpdateToSecrets` | pkg/crypto/password.go:171-179 | each entry is written once, all of them on success and a part on failure, in any order; with no other writer the store then holds them and is otherwise unchanged |
| `Passwords.LoadedIsPublished` | pkg/crypto/password.go:87-105 | a loaded password is published in that Secret, as the one thing it holds |
| `Passwords.PublishingIsOrderIndependent` | pkg/crypto/password.go:171-179 | one outcome for every order if and only if no two entries clash |
| `Passwords.LoadedHasNoClash` | pkg/crypto/password.go:143-168 | distinct names go to distinct Secrets |
| `Passwords.PublishThenReload` | pkg/crypto/password.go:143-179 | load, publish, load again: the same set |
| `CreateOrUpdate.CreateOrUpdateWorkload` | pkg/client/utils.go:150-196 | success: the store, as this call found it, has the object applied; a matching object is only read; at most one write |
| `CreateOrUpdate.CreateOrUpdateService` | pkg/client/utils.go:199-221 | the same with type and ports only |
| `CreateOrUpdate.CreateOrUpdateFromUnstructured` | pkg/client/utils.go:92-143 | the whole object is created or replaced, by at most one write |
| `CreateOrUpdate.PodAppliedIsExact` | pkg/client/utils.go:162-167 | requested spec, old metadata, no other object changed, nothing else does that, and a second application changes nothing |
| `CreateOrUpdate.ServiceAppliedIsExact` | pkg/client/utils.go:211-217 | a new Service is stored as it is; of an existing one type and ports only, and the spec is as requested if and only if the rest was so already; a second application changes nothing |
| `Names.ParseUndoesPrint` | pkg/util/names.go:40-59 | parsing undoes printing if and only if the namespace is nonempty and has no slash |
| `Names.PrintUndoesParse` | pkg/util/names.go:40-59 | printing undoes parsing if and only if there is a slash, and not at the start |
| `Names.ReparseIsStable` | pkg/util/names.go:40-59 | parse, print, parse is parse if and only if the text does not start with a slash |
| `Names.NoSlashIsDefault` | pkg/util/names.go:47-59 | a text without a slash is a name in kube-system |
| `Names.PrintIsInjective` | pkg/util/names.go:40-45 | names with a nonempty, slash-free namespace print differently |
| `Lists.RemoveDuplicates` | pkg/util/strings.go:44-56 | each element once, in the order of first appearance |
| `Lists.DeduplicatedIsUnique` | pkg/util/strings.go:44-56 | that description has one solution |
| `Lists.NoRepeatsIsFixed` | pkg/util/strings.go:44-56 | a list is left alone if and only if it has no repeats |
| `Lists.Idempotent` | pkg/util/strings.go:44-56 | deduplicating twice is deduplicating once |
| `Lists.DeduplicationOfConcatenation` | pkg/util/strings.go:44-56 | on a concatenation the second half adds only what the first lacks |
| `Base64.RoundTrip` | pkg/util/strings.go:32-42 | decoding undoes encoding on every byte string, in both encodings |
| `Base64.HelpersRoundTrip` | pkg/util/template.go:40-50 | so do the four helpers |
| `Base64.EncodedShape` | pkg/util/template.go:40-42 | one digit per started six bits, then padding where the encoding pads |
| `Base64.EncodedQuantum` | pkg/util/strings.go:32-34 | three bytes are one number, written with four digits in base 64 |
| `Base64.EncodedPair` | pkg/util/strings.go:32-34 | two bytes at the end become three digits and the padding |
| `Base64.EncodedSingle` | pkg/util/strings.go:32-34 | one byte at the end becomes two digits and the padding |
| `Base64.EncodingOfConcatenation` | pkg/util/strings.go:32-34 | three bytes at a time |
| `Base64.Alphabets` | pkg/util/strings.go:32-34 | the digits are those of tables 1 and 2 of RFC 4648 |
| `Base64.URL64encodeIsURLSafe` | pkg/util/strings.go:32-34 | ceil(4n/3) characters of the URL-safe alphabet, no padding |
| `Base64.EncodingIsInjective` | pkg/util/strings.go:32-34 | equal texts come from equal bytes |
| `Base64.DecodeStringExact` | pkg/util/strings.go:36-42 | which texts decode, and which of them are canonical, both exactly |
| `Base64.MalformedInput` | pkg/util/template.go:44-50 | on all other texts the helpers return nothing, or the text of the error |
| `Base64.DecodingIsNotInjective` | pkg/util/strings.go:36-42 | two texts that decode alike |
| `TemplateHelpers.IndentPadsLines` | pkg/util/template.go:31-34 | the first line stays, every other one gains exactly n spaces, and no line comes or goes |
| `TemplateHelpers.NoBreaksInLines` | pkg/util/template.go:31-34 | the lines are what is between the line breaks |
| `TemplateHelpers.IndentComposes` | pkg/util/template.go:31-34 | indenting twice is indenting by the sum |
| `TemplateHelpers.IndentIsInjective` | pkg/util/template.go:31-34 | indentation loses nothing |
| `TemplateHelpers.SafePathRoundTrip` | pkg/util/template.go:52-55 | dropping the backslashes before spaces and colons undoes the escaping of any string |
| `TemplateHelpers.SafePathIsInjective` | pkg/util/template.go:52-55 | escaping is injective |
| `TemplateHelpers.SafePathRange` | pkg/util/template.go:52-55 | the escaped texts are exactly those with a backslash before each space and colon |
| `Seeder.NeverEmpty` | pkg/config/config.go:215-233 | the normal form is never empty |
| `Seeder.PlainAddressIsKept` | pkg/config/config.go:217-232 | a plain address survives, and a bare name gets port 6443, if and only if the name does not start with "http" |
| `Seeder.HTTPNamesAreLost` | pkg/config/config.go:218-232 | a bare name that starts with "http" is lost |
| `Seeder.SchemeKeepsAddress` | pkg/config/config.go:218-232 | with the scheme written out every plain address survives |
| `Seeder.URLKeepsAddress` | pkg/config/config.go:222-232 | a URL gives its plain address, whatever user, path, query and fragment it has |
| `Seeder.BracketsAreLost` | pkg/config/config.go:232 | an IPv6 address loses its brackets, and taken once more its host is what comes before its first colon |
| `Seeder.NormalizeIsIdempotent` | pkg/config/config.go:217-232 | normalising is idempotent if and only if the host name does not start with "http" |
| `Config.LocalEtcdConfiguration.DeepCopyInto` | pkg/config/zz_generated.deepcopy.go:197-210 | equal value, fresh arrays, nil stays nil |
| `Config.KubicInitConfiguration.DeepCopyInto` | pkg/config/zz_generated.deepcopy.go:126-176 | equal value, and everything reachable beyond the target is fresh |
| `Config.KubicInitConfiguration.DeepCopy` | pkg/config/zz_generated.deepcopy.go:179-186 | equal value, and nothing shared that can be written |
| `Config.KubicInitConfiguration.Finish` | pkg/config/config.go:204-233 | the environment's values win when set at all; then the seeder is normalised or rejected |
| `Config.ConfigFileAndDefaultsToKubicInitConfig` | pkg/config/config.go:181-244 | when loading fails and the whole configuration it yields otherwise; the defaults never change and the result shares nothing with them |
| `Config.EnvironmentThenFileThenDefaults` | pkg/config/config.go:184-213 | part by part the environment wins over the file and the file over the defaults |
| `Config.ChosenAddressIsNormalized` | pkg/config/config.go:215-233 | the chosen address is rejected with its scheme or put into its normal form, which for a plain one is itself |
| `Config.NormalizationKeepsTheRole` | pkg/config/config.go:309-311 | who is the seeder is settled by the address chosen, not by its normalisation |

## Left out

- Command line, kubeadm, cluster and CNI packages: wiring of external programs and copying into library schemas.
- The inside of the RBAC phase (`pkg/loader/rbac.go`) and its directories: one event that succeeds or fails.
- The template engine, YAML and JSON decoding: uninterpreted functions (`Stages`, `unmarshalCRD`), and for the
  configuration what the decoded file says of each part (`Overlay`).
- The errors of `net/url`: an arbitrary predicate says which addresses are rejected; percent-decoding of hosts is not modelled.
- RSA, x509 and PEM: identities instead of bytes. The quality of randomness: only length and alphabet.
- What a search finds when a manifest directory's name has one of the characters `*?[\`, and whether such a pattern is
  malformed: an arbitrary function (`Environment.glob`). Other names are taken literally.
- That decoding the document `null` through the address of a pointer sets it to nil, so that loading panics, is an
  assumption about the YAML library (`NullDocument`), as are the other outcomes of decoding.
- Real time: a wait is bounded by a number of ticks or looks. `AutoCert.Request` has no such bound in the program, so
  `StillWaiting` stands for a call that has not returned; `Request` panics without names only after it has generated a key.
- An address read over HTTP answers the same throughout one installation.
- The server's defaulting and validation of objects, and status fields other than those of certificate requests.
- Changes that a caller makes to a cached Secret through the shared pointer: Secrets are values here.
- `SafeId`, the template helper `replace`, `WaitForURL`, `GetConfig`, `SetVars`, NetworkPolicies and the getters: nothing
  hard to prove about them.
- CreateOrUpdateWorkload: stands for both the Pod and the Job form, which differ in the kind only.

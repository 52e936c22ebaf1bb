/** Loading the configuration (pkg/config/config.go) over a deep copy of the defaults
    (pkg/config/zz_generated.deepcopy.go). */
module Config {
  import opened Wrappers
  import Seeder

  datatype ClusterFormation = ClusterFormation(seeder: string, token: string, autoApprove: bool)

  /** A slice of strings as a value; None is the nil slice. */
  type Strings = Option<seq<string>>

  datatype EtcdValue = EtcdValue(serverCertSANs: Strings, peerCertSANs: Strings)

  /** The whole configuration as a value; `settings` are all its parts without pointers but the cluster formation. */
  datatype ConfigValue = ConfigValue(formation: ClusterFormation, settings: string, etcd: Option<EtcdValue>)

  ghost function ValueOf(a: array?<string>): Strings
    reads a
  {
    if a == null then None else Some(a[..])
  }

  /** make and copy */
  method CopySlice(a: array<string>) returns (b: array<string>)
    ensures fresh(b) && b[..] == a[..]
  {
    b := new string[a.Length](_ => "");
    for i := 0 to a.Length
      invariant b[..i] == a[..i]
    {
      b[i] := a[i];
    }
  }

  class LocalEtcdConfiguration {
    var serverCertSANs: array?<string>
    var peerCertSANs: array?<string>

    constructor ()
      ensures serverCertSANs == null && peerCertSANs == null
    {
      serverCertSANs, peerCertSANs := null, null;
    }

    ghost function Arrays(): set<object>
      reads this
    {
      (if serverCertSANs == null then {} else {serverCertSANs}) + (if peerCertSANs == null then {} else {peerCertSANs})
    }

    ghost function Value(): EtcdValue
      reads this, Arrays()
    {
      EtcdValue(ValueOf(serverCertSANs), ValueOf(peerCertSANs))
    }

    method DeepCopyInto(out: LocalEtcdConfiguration)
      requires out != this
      modifies out
      ensures fresh(out.Arrays())
      ensures out.Value() == old(Value())
      ensures ValueOf(out.serverCertSANs) == old(ValueOf(serverCertSANs))
      ensures ValueOf(out.peerCertSANs) == old(ValueOf(peerCertSANs))
    {
      out.serverCertSANs, out.peerCertSANs := serverCertSANs, peerCertSANs;
      if serverCertSANs != null {
        out.serverCertSANs := CopySlice(serverCertSANs);
      }
      if peerCertSANs != null {
        out.peerCertSANs := CopySlice(peerCertSANs);
      }
    }
  }

  class KubicInitConfiguration {
    var formation: ClusterFormation
    var settings: string
    var localEtcd: LocalEtcdConfiguration?

    constructor (formation: ClusterFormation, settings: string, localEtcd: LocalEtcdConfiguration?)
      ensures this.formation == formation && this.settings == settings && this.localEtcd == localEtcd
    {
      this.formation, this.settings, this.localEtcd := formation, settings, localEtcd;
    }

    /** Every object that can be written through this configuration. */
    ghost function Reach(): set<object>
      reads this, localEtcd
    {
      {this} + if localEtcd == null then {} else {localEtcd} + localEtcd.Arrays()
    }

    ghost function Value(): ConfigValue
      reads Reach()
    {
      ConfigValue(formation, settings, if localEtcd == null then None else Some(localEtcd.Value()))
    }

    method DeepCopyInto(out: KubicInitConfiguration)
      requires out !in Reach()
      modifies out
      ensures fresh(out.Reach() - {out})
      ensures out.Value() == old(Value())
      ensures out.formation == old(formation) && out.settings == old(settings)
      ensures out.localEtcd == null <==> old(localEtcd) == null
    {
      out.formation, out.settings, out.localEtcd := formation, settings, localEtcd;
      if localEtcd != null {
        var etcd := new LocalEtcdConfiguration();
        localEtcd.DeepCopyInto(etcd);
        out.localEtcd := etcd;
      }
    }

    /** The copy has the same value and shares nothing that can be written with the original. */
    method DeepCopy() returns (out: KubicInitConfiguration)
      ensures fresh(out.Reach()) && out.Value() == Value()
    {
      out := new KubicInitConfiguration(ClusterFormation("", "", false), "", null);
      DeepCopyInto(out);
    }

    /** The second half of loading: the environment's values, then the seeder's normal form. */
    method Finish(seederEnv: Option<string>, tokenEnv: Option<string>, rejects: string -> bool) returns (ok: bool)
      modifies `formation
      ensures ok <==> Normalized(rejects, Chosen(seederEnv, old(formation.seeder))).Some?
      ensures ok ==> formation == ClusterFormation(
                                    Normalized(rejects, Chosen(seederEnv, old(formation.seeder))).value,
                                    Chosen(tokenEnv, old(formation.token)), old(formation.autoApprove))
    {
      if seederEnv.Some? {
        formation := formation.(seeder := seederEnv.value);
      }
      if tokenEnv.Some? {
        formation := formation.(token := tokenEnv.value);
      }
      if |formation.seeder| > 0 {
        var seeder := formation.seeder;
        if rejects(Seeder.WithScheme(seeder)) {
          return false;
        }
        formation := formation.(seeder := Seeder.Normalize(seeder));
      }
      return true;
    }

    predicate IsSeeder()
      reads this
    {
      |formation.seeder| == 0
    }
  }

  /** What a file says of a list: nothing, or that it is these strings or nil. */
  datatype ListOverlay = Kept | Replaced(strings: Strings)

  /** What it says of the local etcd: nothing, or that there is none, or something of its lists. */
  datatype EtcdOverlay = Untouched | Removed | Given(serverCertSANs: ListOverlay, peerCertSANs: ListOverlay)

  /** What a readable YAML file says: the keys it has overwrite what was there. */
  datatype Overlay = Overlay(seeder: Option<string>, token: Option<string>, autoApprove: Option<bool>,
                             settings: string -> string, etcd: EtcdOverlay)

  function Chosen<T>(given: Option<T>, otherwise: T): T {
    if given.Some? then given.value else otherwise
  }

  function OverlaidList(o: ListOverlay, before: Strings): Strings {
    if o.Kept? then before else o.strings
  }

  function OverlaidEtcd(o: EtcdOverlay, before: Option<EtcdValue>): Option<EtcdValue> {
    match o
    case Untouched => before
    case Removed => None
    case Given(server, peer) =>
      var etcd := Chosen(before, EtcdValue(None, None));
      Some(EtcdValue(OverlaidList(server, etcd.serverCertSANs), OverlaidList(peer, etcd.peerCertSANs)))
  }

  function OverlaidFormation(o: Overlay, formation: ClusterFormation): ClusterFormation {
    ClusterFormation(Chosen(o.seeder, formation.seeder), Chosen(o.token, formation.token),
                     Chosen(o.autoApprove, formation.autoApprove))
  }

  function Overlaid(o: Overlay, before: ConfigValue): ConfigValue {
    ConfigValue(OverlaidFormation(o, before.formation), o.settings(before.settings), OverlaidEtcd(o.etcd, before.etcd))
  }

  /** A list is decoded into a new array. */
  method DecodeList(o: ListOverlay, before: array?<string>) returns (a: array?<string>)
    ensures ValueOf(a) == OverlaidList(o, ValueOf(before))
    ensures a == null || a == before || fresh(a)
  {
    if o.Kept? {
      return before;
    }
    if o.strings.None? {
      return null;
    }
    var strings := o.strings.value;
    var b := new string[|strings|](i requires 0 <= i < |strings| => strings[i]);
    assert b[..] == strings;
    a := b;
  }

  /** yaml.Unmarshal into a configuration: a mapping for the local etcd is decoded into the object that is there, or
      into a new one. */
  method Unmarshal(o: Overlay, cfg: KubicInitConfiguration)
    modifies cfg, cfg.localEtcd
    ensures fresh(cfg.Reach() - old(cfg.Reach()))
    ensures cfg.Value() == Overlaid(o, old(cfg.Value()))
  {
    cfg.formation := OverlaidFormation(o, cfg.formation);
    cfg.settings := o.settings(cfg.settings);
    match o.etcd {
      case Untouched =>
      case Removed => cfg.localEtcd := null;
      case Given(server, peer) =>
        if cfg.localEtcd == null {
          cfg.localEtcd := new LocalEtcdConfiguration();
        }
        var decoded := DecodeList(server, cfg.localEtcd.serverCertSANs);
        cfg.localEtcd.serverCertSANs := decoded;
        decoded := DecodeList(peer, cfg.localEtcd.peerCertSANs);
        cfg.localEtcd.peerCertSANs := decoded;
    }
  }

  datatype ConfigError = Unreadable | Undecodable | NilPointer | BadSeeder

  /** A configuration file: no path given, a path that cannot be read, text that is not YAML, the document null, which
      makes the decoder drop the copy it was given, or an overlay, which an empty file is too. */
  datatype ConfigFile = NoPath | NotReadable | NotYAML | NullDocument | Readable(overlay: Overlay)

  /** The configuration once the file has been read and the environment's variables, if set at all, have been put
      over it. */
  function RawConfig(file: ConfigFile, defaults: ConfigValue, seederEnv: Option<string>, tokenEnv: Option<string>)
    : ConfigValue
  {
    var v := if file.Readable? then Overlaid(file.overlay, defaults) else defaults;
    v.(formation := v.formation.(seeder := Chosen(seederEnv, v.formation.seeder),
                                 token := Chosen(tokenEnv, v.formation.token)))
  }

  /** What normalisation makes of it; an empty address stays empty, and a rejected one is an error. */
  function Normalized(rejects: string -> bool, seeder: string): Option<string> {
    if |seeder| == 0 then Some("")
    else if rejects(Seeder.WithScheme(seeder)) then None
    else Some(Seeder.Normalize(seeder))
  }

  /** The environment wins over the file, and the file over the defaults, part by part. */
  lemma EnvironmentThenFileThenDefaults(file: ConfigFile, defaults: ConfigValue, seederEnv: Option<string>,
                                        tokenEnv: Option<string>)
    ensures var raw := RawConfig(file, defaults, seederEnv, tokenEnv);
            && raw.formation.seeder == (
                 if seederEnv.Some? then seederEnv.value
                 else if file.Readable? && file.overlay.seeder.Some? then file.overlay.seeder.value
                 else defaults.formation.seeder)
            && raw.formation.token == (
                 if tokenEnv.Some? then tokenEnv.value
                 else if file.Readable? && file.overlay.token.Some? then file.overlay.token.value
                 else defaults.formation.token)
            && raw.formation.autoApprove == (
                 if file.Readable? && file.overlay.autoApprove.Some? then file.overlay.autoApprove.value
                 else defaults.formation.autoApprove)
    ensures !file.Readable? ==>
              RawConfig(file, defaults, seederEnv, tokenEnv) ==
                defaults.(formation := RawConfig(file, defaults, seederEnv, tokenEnv).formation)
    ensures file.Readable? ==>
              var raw := RawConfig(file, defaults, seederEnv, tokenEnv);
              && raw.settings == file.overlay.settings(defaults.settings)
              && (raw.etcd.None? <==>
                    file.overlay.etcd.Removed? || (file.overlay.etcd.Untouched? && defaults.etcd.None?))
              && (raw.etcd.Some? ==> EtcdExactly(file.overlay.etcd, defaults.etcd, raw.etcd.value))
  {
  }

  /** Each list is the file's, if that says something of it, or else the one from before, or nil. */
  predicate EtcdExactly(o: EtcdOverlay, before: Option<EtcdValue>, after: EtcdValue) {
    && after.serverCertSANs == (
         if o.Given? && o.serverCertSANs.Replaced? then o.serverCertSANs.strings
         else if before.Some? then before.value.serverCertSANs else None)
    && after.peerCertSANs == (
         if o.Given? && o.peerCertSANs.Replaced? then o.peerCertSANs.strings
         else if before.Some? then before.value.peerCertSANs else None)
  }

  /** An address that is chosen is rejected with its scheme, or put into its normal form; a plain one is loaded as it
      is, with the default port if it has none. */
  lemma ChosenAddressIsNormalized(rejects: string -> bool, seeder: string, h: string, p: string)
    ensures Normalized(rejects, seeder) == (
              if seeder == "" then Some("")
              else if rejects(if "http" <= seeder then seeder else "https" + ":" + ("//" + seeder)) then None
              else Some(Seeder.Normalize(seeder)))
    ensures Seeder.PlainHost(h) && Seeder.PlainPort(p) && !("http" <= h) ==>
              && Normalized(rejects, h + ":" + p) in {None, Some(h + ":" + p)}
              && Normalized(rejects, h) in {None, Some(h + ":" + "6443")}
  {
    if Seeder.PlainHost(h) && Seeder.PlainPort(p) && !("http" <= h) {
      Seeder.OtherNamesAreKept(h, p);
    }
  }

  /** Loading fails exactly when the file cannot be used or the chosen seeder is rejected.  Nothing it does, and
      nothing that is later done to the result, can change the defaults. */
  method ConfigFileAndDefaultsToKubicInitConfig(
      defaults: KubicInitConfiguration, file: ConfigFile, seederEnv: Option<string>, tokenEnv: Option<string>,
      rejects: string -> bool)
    returns (r: Result<KubicInitConfiguration, ConfigError>)
    ensures defaults.Reach() == old(defaults.Reach()) && defaults.Value() == old(defaults.Value())
    ensures r.Success? ==> fresh(r.value.Reach())
    ensures var raw := RawConfig(file, old(defaults.Value()), seederEnv, tokenEnv);
            match file
            case NotReadable => r == Failure(Unreadable)
            case NotYAML => r == Failure(Undecodable)
            case NullDocument => r == Failure(NilPointer)
            case _ =>
              match Normalized(rejects, raw.formation.seeder)
              case None => r == Failure(BadSeeder)
              case Some(seeder) =>
                && r.Success?
                && r.value.Value() == raw.(formation := raw.formation.(seeder := seeder))
                && (r.value.IsSeeder() <==> raw.formation.seeder == "")
  {
    var loaded := CopyAndOverlay(defaults, file);
    if loaded.Failure? {
      return loaded;
    }
    var internalcfg := loaded.value;
    var ok := internalcfg.Finish(seederEnv, tokenEnv, rejects);
    return if ok then Success(internalcfg) else Failure(BadSeeder);
  }

  /** The first half of loading: a deep copy of the defaults, with the file decoded over it.  NilPointer is the panic
      that the next use of a copy that is gone ends in. */
  method CopyAndOverlay(defaults: KubicInitConfiguration, file: ConfigFile)
    returns (r: Result<KubicInitConfiguration, ConfigError>)
    ensures r.Success? ==> fresh(r.value.Reach())
    ensures match file
            case NotReadable => r == Failure(Unreadable)
            case NotYAML => r == Failure(Undecodable)
            case NullDocument => r == Failure(NilPointer)
            case NoPath => r.Success? && r.value.Value() == old(defaults.Value())
            case Readable(overlay) => r.Success? && r.value.Value() == Overlaid(overlay, old(defaults.Value()))
  {
    var internalcfg := defaults.DeepCopy();
    match file {
      case NoPath =>
      case NotReadable => return Failure(Unreadable);
      case NotYAML => return Failure(Undecodable);
      case NullDocument => return Failure(NilPointer);
      case Readable(overlay) => Unmarshal(overlay, internalcfg);
    }
    return Success(internalcfg);
  }

  /** Whether a node is the seeder is settled by the chosen address: normalising never empties it and never fills it. */
  lemma NormalizationKeepsTheRole(rejects: string -> bool, seeder: string)
    ensures Normalized(rejects, seeder).Some? ==> (Normalized(rejects, seeder).value == "" <==> seeder == "")
    ensures Normalized(rejects, seeder).None? <==> seeder != "" && rejects(Seeder.WithScheme(seeder))
  {
    Seeder.NeverEmpty(seeder);
  }
}

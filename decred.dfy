/** cmd/dcrinstall/decred.go: the decred bundle — its catalogue, the download and
    verify sequence, the config and client-certificate set-up, and the binary install. */
module Decred {
  import opened Wrappers
  import GoPath
  import Config
  import SemVer
  import Bundle

  const WalletClientsPem: string := "clients.pem"
  const ClientPem: string := "client.pem"
  const ClientKey: string := "client-key.pem"
  const WalletDB: string := "wallet.db"
  const LnWalletDB: string := "channel.db"

  /** A `decredFiles` entry: none of them is a directory or reads its sample from memory. */
  function Entry(name: string, config: string, sample: string, versioned: bool): Bundle.Component {
    Bundle.Component(name, config, sample, "", versioned, false, "")
  }

  /** `df`. */
  const DF: seq<Bundle.Component> := [
    Entry("dcrctl", "dcrctl.conf", "sample-dcrctl.conf", true),
    Entry("dcrd", "dcrd.conf", "sample-dcrd.conf", true),
    Entry("dcrwallet", "dcrwallet.conf", "sample-dcrwallet.conf", true),
    Entry("promptsecret", "", "", false),
    Entry("dcrlnd", "dcrlnd.conf", "sample-dcrlnd.conf", true),
    Entry("dcrlncli", "", "", true),
    Entry("politeiavoter", "politeiavoter.conf", "sample-politeiavoter.conf", true),
    Entry("gencerts", "", "", false)
  ]

  /** Six binaries answer `--version` and five come with a config file. */
  lemma CatalogueCounts()
    ensures Bundle.Versioned(DF) == 6 && Bundle.WithConfig(DF) == 5
  {
    assert DF[..0] == [];
    Bundle.CountsSnoc(DF, 0);
    Bundle.CountsSnoc(DF, 1);
    Bundle.CountsSnoc(DF, 2);
    Bundle.CountsSnoc(DF, 3);
    Bundle.CountsSnoc(DF, 4);
    Bundle.CountsSnoc(DF, 5);
    Bundle.CountsSnoc(DF, 6);
    Bundle.CountsSnoc(DF, 7);
    assert DF[..8] == DF;
  }

  /** The names are plain and distinct, and no entry is a directory. */
  lemma CatalogueNames()
    ensures Bundle.PlainNames(DF)
    ensures forall k :: 0 <= k < |DF| ==> !DF[k].directory
  {
    NamesPlain();
    NamesDistinct();
  }

  lemma NamesPlain()
    ensures forall k :: 0 <= k < |DF| ==> DF[k].name != "" && '/' !in DF[k].name && '.' !in DF[k].name
  {
    forall k | 0 <= k < |DF|
      ensures DF[k].name != "" && '/' !in DF[k].name && '.' !in DF[k].name
    {
      Bundle.LowerIsPlain(DF[k].name);
    }
  }

  lemma NamesDistinct()
    ensures forall i, j :: 0 <= i < j < |DF| ==> DF[i].name != DF[j].name
  {
    forall i, j | 0 <= i < j < |DF|
      ensures DF[i].name != DF[j].name
    {
      assert |DF[i].name| != |DF[j].name| || DF[i].name[0] != DF[j].name[0] || DF[i].name[3] != DF[j].name[3];
    }
  }

  /** The folder of a component's config file: its application data directory. */
  function ConfigDir(env: Bundle.Env): Bundle.Component -> string {
    (c: Bundle.Component) => env.appDataDir(c.name, false)
  }

  /** Where the archive unpacks: `<destination>/decred-<tuple>-<version>`. */
  function BundleDir(run: Bundle.Run): string {
    GoPath.Join(run.destination, "decred-" + run.tuple + "-" + run.decredVersion)
  }

  /** The sample config of every entry is a file of the unpacked archive. */
  function SampleOf(run: Bundle.Run): Bundle.Component -> Bundle.Sample {
    (c: Bundle.Component) => Bundle.FromFile(GoPath.Join(BundleDir(run), c.sampleFilename))
  }

  /** The credentials each config receives. */
  function Overrides(name: string, username: string, password: string): seq<Config.Override> {
    match name
    case "dcrwallet" => [Config.Override("; username=", username), Config.Override("; password=", password)]
    case "dcrlnd" => [Config.Override("; dcrd.rpcuser=", username), Config.Override("; dcrd.rpcpass=", password)]
    case _ => [Config.Override("; rpcuser=", username), Config.Override("; rpcpass=", password)]
  }

  function OverridesOf(run: Bundle.Run): Bundle.Component -> seq<Config.Override> {
    (c: Bundle.Component) => Overrides(c.name, run.username, run.password)
  }

  /** What the overrides do to the commented credential lines of the samples: the wallet
      gets `username`/`password`, dcrlnd the `dcrd.rpcuser`/`dcrd.rpcpass` pair, and every
      other config `rpcuser`/`rpcpass`, each switched on with the run's credentials. */
  lemma CredentialLines(name: string, u: string, p: string, rest: string)
    ensures name == "dcrwallet" ==>
      && Config.ApplyOverrides("; username=" + rest, Overrides(name, u, p)) == "username=" + u + "\n"
      && Config.ApplyOverrides("; password=" + rest, Overrides(name, u, p)) == "password=" + p + "\n"
    ensures name == "dcrlnd" ==>
      && Config.ApplyOverrides("; dcrd.rpcuser=" + rest, Overrides(name, u, p)) == "dcrd.rpcuser=" + u + "\n"
      && Config.ApplyOverrides("; dcrd.rpcpass=" + rest, Overrides(name, u, p)) == "dcrd.rpcpass=" + p + "\n"
    ensures name != "dcrwallet" && name != "dcrlnd" ==>
      && Config.ApplyOverrides("; rpcuser=" + rest, Overrides(name, u, p)) == "rpcuser=" + u + "\n"
      && Config.ApplyOverrides("; rpcpass=" + rest, Overrides(name, u, p)) == "rpcpass=" + p + "\n"
  {
    if name == "dcrwallet" {
      WalletLines(u, p, rest);
    } else if name == "dcrlnd" {
      LndLines(u, p, rest);
    } else {
      RpcLines(u, p, rest);
    }
  }

  lemma WalletLines(u: string, p: string, rest: string)
    ensures Config.ApplyOverrides("; username=" + rest, Overrides("dcrwallet", u, p)) == "username=" + u + "\n"
    ensures Config.ApplyOverrides("; password=" + rest, Overrides("dcrwallet", u, p)) == "password=" + p + "\n"
  {
    Activate("; username=", "; password=", "username=", "password=", u, p, rest, 0);
  }

  lemma LndLines(u: string, p: string, rest: string)
    ensures Config.ApplyOverrides("; dcrd.rpcuser=" + rest, Overrides("dcrlnd", u, p)) == "dcrd.rpcuser=" + u + "\n"
    ensures Config.ApplyOverrides("; dcrd.rpcpass=" + rest, Overrides("dcrlnd", u, p)) == "dcrd.rpcpass=" + p + "\n"
  {
    Activate("; dcrd.rpcuser=", "; dcrd.rpcpass=", "dcrd.rpcuser=", "dcrd.rpcpass=", u, p, rest, 8);
  }

  lemma RpcLines(u: string, p: string, rest: string)
    ensures forall name :: name != "dcrwallet" && name != "dcrlnd" ==>
      Overrides(name, u, p) == [Config.Override("; rpcuser=", u), Config.Override("; rpcpass=", p)]
    ensures Config.ApplyOverrides("; rpcuser=" + rest, [Config.Override("; rpcuser=", u), Config.Override("; rpcpass=", p)]) == "rpcuser=" + u + "\n"
    ensures Config.ApplyOverrides("; rpcpass=" + rest, [Config.Override("; rpcuser=", u), Config.Override("; rpcpass=", p)]) == "rpcpass=" + p + "\n"
  {
    Activate("; rpcuser=", "; rpcpass=", "rpcuser=", "rpcpass=", u, p, rest, 3);
  }

  lemma Activate(n1: string, n2: string, k1: string, k2: string, c1: string, c2: string, rest: string, i: nat)
    requires n1 == "; " + k1 && n2 == "; " + k2
    requires k1 != "" && k2 != "" && k1[0] !in Config.CommentMarkers && k2[0] !in Config.CommentMarkers
    requires i < |k1| && i < |k2| && k1[i] != k2[i]
    ensures Config.ApplyOverrides(n1 + rest, [Config.Override(n1, c1), Config.Override(n2, c2)]) == k1 + c1 + "\n"
    ensures Config.ApplyOverrides(n2 + rest, [Config.Override(n1, c1), Config.Override(n2, c2)]) == k2 + c2 + "\n"
  {
    Config.ActivatePair(n1, n2, k1, k2, c1, c2, rest, i);
  }

  /** `preconditionsDecredInstall`. */
  method Preconditions(run: Bundle.Run, env: Bundle.Env, fs: map<string, string>) returns (r: Outcome<Bundle.Error>)
    ensures r == Bundle.PreconditionsOf(run.tuple, env, DF, run.destination, ConfigDir(env), fs)
  {
    r := Bundle.Preconditions(run.tuple, env, DF, run.destination, ConfigDir(env), fs);
  }

  /** On the native tuple the check passes exactly when no probe fails, nothing runs,
      none or all six versioned binaries answer with a version, and none or all five
      config files exist. */
  lemma PreconditionsLaw(run: Bundle.Run, env: Bundle.Env, fs: map<string, string>)
    requires env.runtimeTuple == run.tuple
    ensures Bundle.PreconditionsOf(run.tuple, env, DF, run.destination, ConfigDir(env), fs) == Pass <==>
      && Bundle.Liveness(DF, env.isRunning) == Ok([])
      && Bundle.VersionScan(DF, run.destination, env.versionOutput).Ok?
      && Bundle.AllOrNothing(|Bundle.VersionScan(DF, run.destination, env.versionOutput).value.present|, 6)
      && Bundle.AllOrNothing(|Bundle.ConfigScan(DF, ConfigDir(env), fs).present|, 5)
  {
    CatalogueCounts();
    Bundle.PreconditionsLaw(run.tuple, env, DF, run.destination, ConfigDir(env), fs);
  }

  /** `decredDownloadAndVerify`: the shared sequence over `df`; the archive's version
      becomes `manifestDecredVersion`. */
  method DownloadAndVerify(run: Bundle.Run, env: Bundle.Env, src: Bundle.Source, fs0: map<string, string>)
    returns (run': Bundle.Run, fs: map<string, string>, r: Outcome<Bundle.Error>)
    ensures r == Bundle.DownloadVerdict(run, env, src, DF, ConfigDir(env), fs0)
    ensures run' == (if Bundle.VersionKnown(run, env, src) then run.(decredVersion := Bundle.ReadVersion(run, env, src).value) else run)
    ensures r.Pass? ==> Bundle.ManifestAccepted(run, env, src)
    ensures Bundle.PgpRejects(run, env, src) ==> r.Fail? && run' == run
    ensures r.Pass? ==>
      var found := Bundle.Located(run, env, src);
      && found.Ok? && Bundle.ArchiveVersion(found.value.1).Ok?
      && run' == run.(decredVersion := SemVer.String(Bundle.ArchiveVersion(found.value.1).value))
    ensures r.Pass? ==> Bundle.PreconditionsOf(run.tuple, env, DF, run.destination, ConfigDir(env), fs) == Pass
  {
    var version, fetched;
    fs, version, fetched, r := Bundle.DownloadAndVerify(run, env, src, DF, ConfigDir(env), fs0);
    run' := if version.Some? then run.(decredVersion := version.value) else run;
  }

  // ---------------------------------------------------------------------------
  // Configs and client certificates
  // ---------------------------------------------------------------------------

  /** `appFileExists(app, file)` asks for this path. */
  function AppFile(env: Bundle.Env, app: string, file: string): string {
    GoPath.Join(env.appDataDir(app, false), file)
  }

  function WalletCert(env: Bundle.Env): string { AppFile(env, "dcrwallet", WalletClientsPem) }
  function PiCert(env: Bundle.Env): string { AppFile(env, "politeiavoter", ClientPem) }
  function PiKey(env: Bundle.Env): string { AppFile(env, "politeiavoter", ClientKey) }

  /** `walletDBExists` and `lnWalletDBExists` ask for these paths. */
  function WalletDBPath(env: Bundle.Env, net: string): string {
    GoPath.Join(GoPath.Join(env.appDataDir("dcrwallet", false), net), WalletDB)
  }

  function LnWalletDBPath(env: Bundle.Env, net: string): string {
    GoPath.Join(GoPath.Join(GoPath.Join(GoPath.Join(env.appDataDir("dcrlnd", false), "data"), "graph"), net), LnWalletDB)
  }

  /** The notice left for the user when no lightning wallet exists. */
  function LnNotice(destination: string): Bundle.Notice {
    Bundle.LightningWallet(GoPath.Join(destination, "dcrlncli"))
  }

  /** What the three client-certificate files call for. */
  datatype CertPlan = KeepCerts | GenerateCerts | UnknownCertState

  /** All three present: keep them; none present: generate them; any mix: give up. */
  function CertPlanOf(walletCert: bool, piCert: bool, piKey: bool): (p: CertPlan)
    ensures p == KeepCerts <==> walletCert && piCert && piKey
    ensures p == GenerateCerts <==> !walletCert && !piCert && !piKey
    ensures p == UnknownCertState <==> !(walletCert == piCert == piKey)
  {
    if walletCert && piCert && piKey then KeepCerts
    else if !walletCert && !piCert && !piKey then GenerateCerts
    else UnknownCertState
  }

  function CertPlanIn(env: Bundle.Env, fs: map<string, string>): CertPlan {
    CertPlanOf(WalletCert(env) in fs, PiCert(env) in fs, PiKey(env) in fs)
  }

  /** `<destination>/decred-<tuple>-<version>/gencerts`. */
  function GencertsExe(run: Bundle.Run): string { GoPath.Join(BundleDir(run), "gencerts") }

  /** `generateClientCerts`: gencerts writes politeiavoter's certificate and key, and
      the certificate is copied to the wallet's `clients.pem`, which must not exist. */
  method GenerateClientCerts(run: Bundle.Run, env: Bundle.Env, fs0: map<string, string>)
    returns (fs: map<string, string>, r: Outcome<Bundle.Error>)
    ensures var out := env.gencerts(GencertsExe(run), PiCert(env), PiKey(env));
      && (out.Err? ==> r == Fail(Bundle.CertsFailed(out.error)) && fs == fs0)
      && (out.Ok? ==>
            var made := fs0[PiCert(env) := out.value.0][PiKey(env) := out.value.1];
            if WalletCert(env) in made then r == Fail(Bundle.CertExists(WalletCert(env))) && fs == made
            else r == Pass && fs == made[WalletCert(env) := made[PiCert(env)]])
    ensures CertPlanIn(env, fs0) == GenerateCerts ==> (fs, r) == CertSetup(run, env, fs0)
  {
    fs := fs0;
    var gencertsExe := GencertsExe(run);
    var piClientCert := PiCert(env);
    var piClientKey := PiKey(env);
    var out := env.gencerts(gencertsExe, piClientCert, piClientKey);
    if out.Err? {
      return fs, Fail(Bundle.CertsFailed(out.error));
    }
    fs := fs[piClientCert := out.value.0][piClientKey := out.value.1];
    // Copy the certificate to dcrwallet.
    var dst := WalletCert(env);
    if Bundle.Exists(fs, dst) {
      return fs, Fail(Bundle.CertExists(dst));
    }
    fs := fs[dst := fs[piClientCert]];
    return fs, Pass;
  }

  /** The config loop of `installDecredBundleConfig` over `df`. */
  function Configured(run: Bundle.Run, env: Bundle.Env, fs: map<string, string>): Bundle.Written {
    Bundle.WriteConfigs(DF, ConfigDir(env), SampleOf(run), OverridesOf(run), fs)
  }

  /** Every entry of `df` that has a config file finds it in its data directory. */
  predicate ConfigsPresent(env: Bundle.Env, fs: map<string, string>) {
    forall k :: 0 <= k < |DF| && DF[k].config != "" ==> Bundle.ConfigPath(ConfigDir(env), DF[k]) in fs
  }

  /** The config loop keeps every existing file, fails only on a sample it cannot open,
      and otherwise leaves every config in place. */
  lemma ConfiguredFacts(run: Bundle.Run, env: Bundle.Env, fs0: map<string, string>)
    ensures forall p :: p in fs0 ==> p in Configured(run, env, fs0).fs && Configured(run, env, fs0).fs[p] == fs0[p]
    ensures Configured(run, env, fs0).err.Some? ==> Configured(run, env, fs0).err.value.ConfigFailed?
    ensures Configured(run, env, fs0).err.None? ==> ConfigsPresent(env, Configured(run, env, fs0).fs)
  {
    Bundle.WriteConfigsKeepExisting(DF, ConfigDir(env), SampleOf(run), OverridesOf(run), fs0);
    if Configured(run, env, fs0).err.Some? {
      Bundle.WriteConfigsFailure(DF, ConfigDir(env), SampleOf(run), OverridesOf(run), fs0);
    } else {
      Bundle.WriteConfigsComplete(DF, ConfigDir(env), SampleOf(run), OverridesOf(run), fs0);
    }
  }

  /** The config loop itself. */
  method WriteBundleConfigs(run: Bundle.Run, env: Bundle.Env, fs0: map<string, string>)
    returns (fs: map<string, string>, err: Option<Bundle.Error>)
    ensures Bundle.Written(fs, err) == Configured(run, env, fs0)
  {
    fs, err := Bundle.InstallConfigs(DF, ConfigDir(env), SampleOf(run), OverridesOf(run), fs0);
  }

  /** The files and outcome of the client-certificate switch: kept, generated (failing
      when gencerts fails or the wallet's copy already exists), or refused. */
  function CertSetup(run: Bundle.Run, env: Bundle.Env, fs0: map<string, string>): (map<string, string>, Outcome<Bundle.Error>) {
    match CertPlanIn(env, fs0)
    case KeepCerts => (fs0, Pass)
    case UnknownCertState => (fs0, Fail(Bundle.CertState))
    case GenerateCerts =>
      var out := env.gencerts(GencertsExe(run), PiCert(env), PiKey(env));
      if out.Err? then (fs0, Fail(Bundle.CertsFailed(out.error)))
      else
        var made := fs0[PiCert(env) := out.value.0][PiKey(env) := out.value.1];
        if WalletCert(env) in made then (made, Fail(Bundle.CertExists(WalletCert(env))))
        else (made[WalletCert(env) := made[PiCert(env)]], Pass)
  }

  /** The client-certificate switch of `installDecredBundleConfig`: all three present are
      kept, none present are generated, any mix is refused. No existing file changes. */
  method SetUpCerts(run: Bundle.Run, env: Bundle.Env, fs0: map<string, string>)
    returns (fs: map<string, string>, r: Outcome<Bundle.Error>)
    ensures forall p :: p in fs0 ==> p in fs && fs[p] == fs0[p]
    ensures CertPlanIn(env, fs0) == KeepCerts ==> fs == fs0 && r == Pass
    ensures CertPlanIn(env, fs0) == UnknownCertState ==> fs == fs0 && r == Fail(Bundle.CertState)
    ensures r.Pass? ==> WalletCert(env) in fs && PiCert(env) in fs && PiKey(env) in fs
    ensures r.Fail? ==> r.error.CertState? || r.error.CertsFailed? || r.error.CertExists?
    ensures (fs, r) == CertSetup(run, env, fs0)
  {
    fs := fs0;
    var walletCert := Bundle.Exists(fs, WalletCert(env));
    var piCert := Bundle.Exists(fs, PiCert(env));
    var piKey := Bundle.Exists(fs, PiKey(env));
    if walletCert && piCert && piKey {
      // Client certs exist, skipping client cert generation.
      return fs, Pass;
    } else if !walletCert && !piCert && !piKey {
      fs, r := GenerateClientCerts(run, env, fs);
    } else {
      return fs, Fail(Bundle.CertState);
    }
  }

  /** The wallet step of `installDecredBundleConfig`: a missing wallet database makes
      the installer create the wallet, and a missing lightning wallet database calls for
      a notice (creating that wallet needs a running dcrlnd). */
  method SetUpWallets(network: string, env: Bundle.Env, fs: map<string, string>)
    returns (notice: bool, r: Outcome<Bundle.Error>)
    ensures WalletDBPath(env, network) in fs ==> r == Pass
    ensures WalletDBPath(env, network) !in fs ==>
      r == if env.createWallet(network).Pass? then Pass else Fail(Bundle.WalletFailed(env.createWallet(network).error))
    ensures notice <==> r.Pass? && LnWalletDBPath(env, network) !in fs
  {
    if !Bundle.Exists(fs, WalletDBPath(env, network)) {
      var created := env.createWallet(network);
      if created.Fail? {
        return false, Fail(Bundle.WalletFailed(created.error));
      }
    }
    notice := !Bundle.Exists(fs, LnWalletDBPath(env, network));
    r := Pass;
  }

  /** `installDecredBundleConfig` succeeds: on a native tuple every config is written,
      the certificates are in place and the wallet exists or is created. */
  predicate ConfigSucceeds(run: Bundle.Run, env: Bundle.Env, fs0: map<string, string>) {
    env.runtimeTuple == run.tuple ==>
      var c := Configured(run, env, fs0);
      && c.err.None?
      && CertSetup(run, env, c.fs).1.Pass?
      && (WalletDBPath(env, run.network) in CertSetup(run, env, c.fs).0 || env.createWallet(run.network).Pass?)
  }

  /** The lightning-wallet notice is queued: the config step succeeded on a native tuple
      and the lightning wallet's database is missing. */
  predicate LnNoticeDue(run: Bundle.Run, env: Bundle.Env, fs0: map<string, string>) {
    && env.runtimeTuple == run.tuple
    && ConfigSucceeds(run, env, fs0)
    && LnWalletDBPath(env, run.network) !in CertSetup(run, env, Configured(run, env, fs0).fs).0
  }

  /** `installDecredBundleConfig`. On a foreign tuple nothing happens. Otherwise missing
      configs are written, the client certificates are kept or generated, the wallet is
      created when its database is missing, and a notice is queued when the lightning
      wallet's database is missing. No file that existed is ever rewritten. */
  method InstallBundleConfig(run: Bundle.Run, env: Bundle.Env, fs0: map<string, string>)
    returns (run': Bundle.Run, fs: map<string, string>, r: Outcome<Bundle.Error>)
    ensures env.runtimeTuple != run.tuple ==> run' == run && fs == fs0 && r == Pass
    ensures forall p :: p in fs0 ==> p in fs && fs[p] == fs0[p]
    ensures env.runtimeTuple == run.tuple && Configured(run, env, fs0).err.Some? ==>
      r == Fail(Configured(run, env, fs0).err.value)
    ensures (env.runtimeTuple == run.tuple && Configured(run, env, fs0).err.None?
             && CertPlanIn(env, Configured(run, env, fs0).fs) == UnknownCertState) ==> r == Fail(Bundle.CertState)
    ensures r.Pass? && env.runtimeTuple == run.tuple ==>
      && ConfigsPresent(env, fs)
      && WalletCert(env) in fs && PiCert(env) in fs && PiKey(env) in fs
      && (WalletDBPath(env, run.network) in fs || env.createWallet(run.network) == Pass)
    ensures run' == run.(postProcess := run.postProcess +
      if r.Pass? && env.runtimeTuple == run.tuple && LnWalletDBPath(env, run.network) !in fs
      then [LnNotice(run.destination)] else [])
    ensures r.Fail? ==> !r.error.FileNotFound?
    ensures r.Pass? <==> ConfigSucceeds(run, env, fs0)
    ensures env.runtimeTuple == run.tuple ==>
      fs == if Configured(run, env, fs0).err.Some? then Configured(run, env, fs0).fs
            else CertSetup(run, env, Configured(run, env, fs0).fs).0
    ensures run' == run.(postProcess := run.postProcess + if LnNoticeDue(run, env, fs0) then [LnNotice(run.destination)] else [])
  {
    run', fs := run, fs0;
    if env.runtimeTuple != run.tuple {
      return run', fs, Pass;
    }
    // Install config files.
    var err;
    fs, err := WriteBundleConfigs(run, env, fs0);
    ConfiguredFacts(run, env, fs0);
    if err.Some? {
      return run', fs, Fail(err.value);
    }
    fs, r := SetUpCerts(run, env, fs);
    if r.Fail? {
      return run', fs, r;
    }
    var notice;
    notice, r := SetUpWallets(run.network, env, fs);
    if notice {
      run' := run'.(postProcess := run'.postProcess + [LnNotice(run.destination)]);
    }
  }

  // ---------------------------------------------------------------------------
  // Binaries
  // ---------------------------------------------------------------------------

  function BinaryMoves(run: Bundle.Run): seq<Bundle.Move> {
    Bundle.Moves(DF, BundleDir(run), run.destination, run.tuple)
  }

  /** Every entry is copied from the unpacked archive to `<destination>/<name>`, with
      `.exe` on both ends exactly on a `windows*` tuple (no entry is a directory), and
      no two copies touch the same file. */
  lemma BinaryMovesShape(run: Bundle.Run)
    ensures Bundle.Disjoint(BinaryMoves(run))
    ensures forall k :: 0 <= k < |DF| ==>
      var e := if Bundle.IsWindows(run.tuple) then ".exe" else "";
      BinaryMoves(run)[k] == Bundle.Move(GoPath.Join(BundleDir(run), DF[k].name) + e, GoPath.Join(run.destination, DF[k].name) + e)
  {
    CatalogueNames();
    Bundle.MovesDisjoint(DF, run.destination, "decred-" + run.tuple + "-" + run.decredVersion, run.tuple);
    forall k | 0 <= k < |DF| ensures BinaryMoves(run)[k] == Bundle.BinaryMove(BundleDir(run), run.destination, run.tuple, DF[k]) {
      Bundle.MovesAt(DF, BundleDir(run), run.destination, run.tuple, k);
    }
  }

  /** The files once `installDecredBundleConfig` has run: the starting files on a
      foreign tuple, the config loop's when it failed, and otherwise those with the
      client certificates set up. */
  function AfterConfig(run: Bundle.Run, env: Bundle.Env, fs0: map<string, string>): map<string, string> {
    if env.runtimeTuple != run.tuple then fs0
    else if Configured(run, env, fs0).err.Some? then Configured(run, env, fs0).fs
    else CertSetup(run, env, Configured(run, env, fs0).fs).0
  }

  /** `installDecredBundle`: configs first, then the remove-then-copy loop over `df`. A
      failed config step ends the install. Otherwise the result is the copy loop run on
      the configured files: it succeeds exactly when every source is there, leaves
      every binary in place as a copy of the archive's file, and a failing copy leaves
      the copies before it in place. */
  method InstallBundle(run: Bundle.Run, env: Bundle.Env, fs0: map<string, string>)
    returns (run': Bundle.Run, fs: map<string, string>, r: Outcome<Bundle.Error>)
    ensures r.Pass? ==> Bundle.InstalledFrom(fs, BinaryMoves(run))
    ensures r.Pass? ==> forall p :: p in fs0 && !Bundle.IsDst(BinaryMoves(run), p) ==> p in fs && fs[p] == fs0[p]
    ensures r.Fail? && r.error.FileNotFound? ==> exists k :: 0 <= k < |DF| && BinaryMoves(run)[k].src == r.error.path
    ensures !ConfigSucceeds(run, env, fs0) ==> r.Fail? && !r.error.FileNotFound? && fs == AfterConfig(run, env, fs0)
    ensures ConfigSucceeds(run, env, fs0) ==>
      Bundle.Written(fs, if r.Pass? then None else Some(r.error)) == Bundle.CopyAll(AfterConfig(run, env, fs0), BinaryMoves(run))
    ensures r.Pass? <==>
      ConfigSucceeds(run, env, fs0) && forall k :: 0 <= k < |DF| ==> BinaryMoves(run)[k].src in AfterConfig(run, env, fs0)
    ensures r.Pass? ==>
      forall p :: p in AfterConfig(run, env, fs0) && !Bundle.IsDst(BinaryMoves(run), p) ==> p in fs && fs[p] == AfterConfig(run, env, fs0)[p]
    ensures run' == run.(postProcess := run.postProcess + if LnNoticeDue(run, env, fs0) then [LnNotice(run.destination)] else [])
  {
    var fs1;
    run', fs1, r := InstallBundleConfig(run, env, fs0);
    if r.Fail? {
      return run', fs1, r;
    }
    var err;
    fs, err := Bundle.InstallBinaries(DF, BundleDir(run), run.destination, run.tuple, fs1);
    BinaryMovesShape(run);
    if err.Some? {
      Bundle.CopyAllStopsAtMissing(fs1, BinaryMoves(run));
      Bundle.CopyAllOk(fs1, BinaryMoves(run));
      return run', fs, Fail(err.value);
    }
    Bundle.CopyAllInstalled(fs1, BinaryMoves(run));
    Bundle.CopyAllOk(fs1, BinaryMoves(run));
    forall p | p in fs1 && !Bundle.IsDst(BinaryMoves(run), p) ensures p in fs && fs[p] == fs1[p] {
      Bundle.CopyAllFrame(fs1, BinaryMoves(run), p);
    }
    return run', fs, Pass;
  }
}

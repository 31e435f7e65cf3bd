/** cmd/dcrinstall/dcrdex.go: the dcrdex bundle — two executables with compiled-in
    sample configs and the `site` directory of the web interface. */
module Dcrdex {
  import opened Wrappers
  import GoPath
  import Config
  import SemVer
  import Bundle

  /** `dexf`. */
  const DexF: seq<Bundle.Component> := [
    Bundle.Component("dexcctl", "dexcctl.conf", "", "dexcctlSampleConfig", true, false, ""),
    Bundle.Component("dexc", "dexc.conf", "", "dexcSampleConfig", true, false, ""),
    Bundle.Component("site", "", "", "", false, true, "")
  ]

  /** Both executables answer `--version` and come with a config file; the names are
      plain and distinct, and only `site` is a directory. */
  lemma Catalogue()
    ensures Bundle.Versioned(DexF) == 2 && Bundle.WithConfig(DexF) == 2
    ensures Bundle.PlainNames(DexF)
    ensures forall k :: 0 <= k < |DexF| ==> (DexF[k].directory <==> k == 2)
  {
    assert DexF[..0] == [];
    Bundle.CountsSnoc(DexF, 0);
    Bundle.CountsSnoc(DexF, 1);
    Bundle.CountsSnoc(DexF, 2);
    assert DexF[..3] == DexF;
    Bundle.LowerIsPlain(DexF[0].name);
    Bundle.LowerIsPlain(DexF[1].name);
    Bundle.LowerIsPlain(DexF[2].name);
    assert |DexF[0].name| != |DexF[1].name| && DexF[0].name[0] != DexF[2].name[0] && DexF[1].name[0] != DexF[2].name[0];
  }

  /** The `site` directory plays no part in any of the three checks: without it they
      come out the same. */
  lemma SiteIgnored(env: Bundle.Env, dest: string, fs: map<string, string>)
    ensures Bundle.Liveness(DexF, env.isRunning) == Bundle.Liveness(DexF[..2], env.isRunning)
    ensures Bundle.VersionScan(DexF, dest, env.versionOutput) == Bundle.VersionScan(DexF[..2], dest, env.versionOutput)
    ensures Bundle.ConfigScan(DexF, ConfigDir(env), fs) == Bundle.ConfigScan(DexF[..2], ConfigDir(env), fs)
  {
  }

  /** The folder of a config file: the application data directory of its binary. */
  function ConfigDir(env: Bundle.Env): Bundle.Component -> string {
    (c: Bundle.Component) => env.appDataDir(c.name, false)
  }

  /** Where the archive unpacks: `<destination>/dexc-<tuple>-<version>`. */
  function BundleDir(run: Bundle.Run): string {
    GoPath.Join(run.destination, "dexc-" + run.tuple + "-" + run.dcrdexVersion)
  }

  /** Every sample is compiled in. */
  function SampleOf(env: Bundle.Env): Bundle.Component -> Bundle.Sample {
    (c: Bundle.Component) => Bundle.FromMemory(env.sampleConfig(c.sampleMemory))
  }

  /** The settings both configs receive. */
  function Overrides(username: string, password: string): seq<Config.Override> {
    [Config.Override("; rpc=", "1"), Config.Override("; rpcuser=", username), Config.Override("; rpcpass=", password)]
  }

  function OverridesOf(run: Bundle.Run): Bundle.Component -> seq<Config.Override> {
    (c: Bundle.Component) => Overrides(run.username, run.password)
  }

  /** A `; `-commented key that no other override shares position `d` with is switched
      on: its marker goes and its value follows. */
  lemma SemicolonActivates(ovs: seq<Config.Override>, k: nat, d: nat, rest: string)
    requires k < |ovs| && 2 < |ovs[k].name| && ovs[k].name[..2] == "; " && ovs[k].name[2] !in Config.CommentMarkers
    requires d < |ovs[k].name|
    requires forall j :: 0 <= j < |ovs| ==> ovs[j].name != "" && ovs[j].name[0] == ';'
    requires forall j :: 0 <= j < |ovs| && j != k ==> d < |ovs[j].name| && ovs[j].name[d] != ovs[k].name[d]
    ensures Config.ApplyOverrides(ovs[k].name + rest, ovs) == ovs[k].name[2..] + ovs[k].content + "\n"
  {
    var key := ovs[k].name[2..];
    assert ovs[k].name == "; " + key;
    Config.TrimCommented(key);
    Config.Activates(ovs, k, d, rest);
  }

  /** Each setting is switched on in the sample: `; rpc=`, `; rpcuser=` and
      `; rpcpass=` become `rpc=1` and the run's credentials. */
  lemma ConfigLine(u: string, p: string, k: nat, rest: string)
    requires k < 3
    ensures var o := Overrides(u, p)[k];
      Config.ApplyOverrides(o.name + rest, Overrides(u, p)) == o.name[2..] + o.content + "\n"
  {
    var ovs := Overrides(u, p);
    assert ovs[0].name[..2] == "; " && ovs[0].name[2] == 'r' && ovs[0].name[5] == '=';
    assert ovs[1].name[..2] == "; " && ovs[1].name[2] == 'r' && ovs[1].name[5] == 'u';
    assert ovs[2].name[..2] == "; " && ovs[2].name[2] == 'r' && ovs[2].name[5] == 'p';
    SemicolonActivates(ovs, k, 5, rest);
  }

  /** `preconditionsDcrdexInstall`. */
  method Preconditions(run: Bundle.Run, env: Bundle.Env, fs: map<string, string>) returns (r: Outcome<Bundle.Error>)
    ensures r == Bundle.PreconditionsOf(run.tuple, env, DexF, run.destination, ConfigDir(env), fs)
  {
    r := Bundle.Preconditions(run.tuple, env, DexF, run.destination, ConfigDir(env), fs);
  }

  /** On the native tuple the check passes exactly when no probe fails, nothing runs,
      and of the two executables and of the two config files none or both are there. */
  lemma PreconditionsLaw(run: Bundle.Run, env: Bundle.Env, fs: map<string, string>)
    requires env.runtimeTuple == run.tuple
    ensures Bundle.PreconditionsOf(run.tuple, env, DexF, run.destination, ConfigDir(env), fs) == Pass <==>
      && Bundle.Liveness(DexF, env.isRunning) == Ok([])
      && Bundle.VersionScan(DexF, run.destination, env.versionOutput).Ok?
      && Bundle.AllOrNothing(|Bundle.VersionScan(DexF, run.destination, env.versionOutput).value.present|, 2)
      && Bundle.AllOrNothing(|Bundle.ConfigScan(DexF, ConfigDir(env), fs).present|, 2)
  {
    Catalogue();
    Bundle.PreconditionsLaw(run.tuple, env, DexF, run.destination, ConfigDir(env), fs);
  }

  /** `dcrdexDownloadAndVerify`: the shared sequence over `dexf`, a signature failure
      included; the archive's version becomes `manifestDcrdexVersion`. */
  method DownloadAndVerify(run: Bundle.Run, env: Bundle.Env, src: Bundle.Source, fs0: map<string, string>)
    returns (run': Bundle.Run, fs: map<string, string>, r: Outcome<Bundle.Error>)
    ensures r == Bundle.DownloadVerdict(run, env, src, DexF, ConfigDir(env), fs0)
    ensures run' == (if Bundle.VersionKnown(run, env, src) then run.(dcrdexVersion := Bundle.ReadVersion(run, env, src).value) else run)
    ensures r.Pass? ==> Bundle.ManifestAccepted(run, env, src)
    ensures Bundle.PgpRejects(run, env, src) ==> r.Fail? && run' == run
    ensures r.Pass? ==>
      var found := Bundle.Located(run, env, src);
      && found.Ok? && Bundle.ArchiveVersion(found.value.1).Ok?
      && run' == run.(dcrdexVersion := SemVer.String(Bundle.ArchiveVersion(found.value.1).value))
    ensures r.Pass? ==> Bundle.PreconditionsOf(run.tuple, env, DexF, run.destination, ConfigDir(env), fs) == Pass
  {
    var version, fetched;
    fs, version, fetched, r := Bundle.DownloadAndVerify(run, env, src, DexF, ConfigDir(env), fs0);
    run' := if version.Some? then run.(dcrdexVersion := version.value) else run;
  }

  // ---------------------------------------------------------------------------
  // Configs and binaries
  // ---------------------------------------------------------------------------

  /** The config loop of `installDcrdexBundleConfig` over `dexf`. */
  function Configured(run: Bundle.Run, env: Bundle.Env, fs: map<string, string>): Bundle.Written {
    Bundle.WriteConfigs(DexF, ConfigDir(env), SampleOf(env), OverridesOf(run), fs)
  }

  /** The two config files are distinct, and no sample is read from a file. */
  lemma ConfigsSeparate(env: Bundle.Env)
    ensures Bundle.Separate(DexF, ConfigDir(env), SampleOf(env))
  {
    var d := ConfigDir(env);
    forall i, j | 0 <= i < j < |DexF| && DexF[i].config != "" && DexF[j].config != ""
      ensures Bundle.ConfigPath(d, DexF[i]) != Bundle.ConfigPath(d, DexF[j])
    {
      assert i == 0 && j == 1;
      DistinctConfigPaths(env.appDataDir("dexcctl", false), env.appDataDir("dexc", false));
    }
  }

  /** The two config files differ in their final element, wherever they live. */
  lemma DistinctConfigPaths(a: string, b: string)
    ensures GoPath.Join(a, "dexcctl.conf") != GoPath.Join(b, "dexc.conf")
  {
    ConfigNameNoSlash("dexcctl.conf");
    ConfigNameNoSlash("dexc.conf");
    GoPath.BaseOfJoin(a, "dexcctl.conf");
    GoPath.BaseOfJoin(b, "dexc.conf");
  }

  lemma ConfigNameNoSlash(s: string)
    requires forall i :: 0 <= i < |s| ==> 'a' <= s[i] <= 'z' || s[i] == '.'
    ensures '/' !in s
  {
  }

  /** The config loop never fails, keeps every existing file, and leaves both config
      files in place: as they were, or rendered from the compiled-in sample. */
  lemma ConfiguredFacts(run: Bundle.Run, env: Bundle.Env, fs0: map<string, string>)
    ensures Configured(run, env, fs0).err.None?
    ensures forall p :: p in fs0 ==> p in Configured(run, env, fs0).fs && Configured(run, env, fs0).fs[p] == fs0[p]
    ensures forall k :: 0 <= k < 2 ==>
      var dst := Bundle.ConfigPath(ConfigDir(env), DexF[k]);
      && dst in Configured(run, env, fs0).fs
      && (dst !in fs0 ==>
            Configured(run, env, fs0).fs[dst] == Config.Render(env.sampleConfig(DexF[k].sampleMemory), Overrides(run.username, run.password)))
  {
    var dirOf, sampleOf, ovs := ConfigDir(env), SampleOf(env), OverridesOf(run);
    ConfigsSeparate(env);
    Bundle.WriteConfigsOk(DexF, dirOf, sampleOf, ovs, fs0);
    Bundle.WriteConfigsKeepExisting(DexF, dirOf, sampleOf, ovs, fs0);
    Bundle.WriteConfigsComplete(DexF, dirOf, sampleOf, ovs, fs0);
    Bundle.WriteConfigsRender(DexF, dirOf, sampleOf, ovs, fs0);
  }

  /** `installDcrdexBundleConfig`: nothing on a foreign tuple, otherwise the config
      loop; it never fails. */
  method InstallBundleConfig(run: Bundle.Run, env: Bundle.Env, fs0: map<string, string>)
    returns (fs: map<string, string>, r: Outcome<Bundle.Error>)
    ensures r == Pass
    ensures env.runtimeTuple != run.tuple ==> fs == fs0
    ensures env.runtimeTuple == run.tuple ==> fs == Configured(run, env, fs0).fs
  {
    if env.runtimeTuple != run.tuple {
      return fs0, Pass;
    }
    var err;
    fs, err := Bundle.InstallConfigs(DexF, ConfigDir(env), SampleOf(env), OverridesOf(run), fs0);
    ConfiguredFacts(run, env, fs0);
    return fs, Pass;
  }

  function BinaryMoves(run: Bundle.Run): seq<Bundle.Move> {
    Bundle.Moves(DexF, BundleDir(run), run.destination, run.tuple)
  }

  /** Every entry is copied from the unpacked archive to `<destination>/<name>`; the
      two executables get `.exe` on both ends exactly on a `windows*` tuple, `site`
      never does, and no two copies touch the same file. */
  lemma BinaryMovesShape(run: Bundle.Run)
    ensures Bundle.Disjoint(BinaryMoves(run))
    ensures forall k :: 0 <= k < |DexF| ==>
      var e := if k < 2 && Bundle.IsWindows(run.tuple) then ".exe" else "";
      BinaryMoves(run)[k] == Bundle.Move(GoPath.Join(BundleDir(run), DexF[k].name) + e, GoPath.Join(run.destination, DexF[k].name) + e)
  {
    Catalogue();
    Bundle.MovesDisjoint(DexF, run.destination, "dexc-" + run.tuple + "-" + run.dcrdexVersion, run.tuple);
    forall k | 0 <= k < |DexF| ensures BinaryMoves(run)[k] == Bundle.BinaryMove(BundleDir(run), run.destination, run.tuple, DexF[k]) {
      Bundle.MovesAt(DexF, BundleDir(run), run.destination, run.tuple, k);
    }
  }

  /** The files once the config step has run: the config loop's on the native tuple,
      the starting files elsewhere. */
  function AfterConfig(run: Bundle.Run, env: Bundle.Env, fs0: map<string, string>): map<string, string> {
    if env.runtimeTuple == run.tuple then Configured(run, env, fs0).fs else fs0
  }

  /** `installDcrdexBundle`: configs, then the remove-then-copy loop over `dexf`, and
      only after every copy the DCRDEX notice. The result is the copy loop run on the
      configured files: it succeeds exactly when every source is there, and a failing
      copy leaves the copies before it in place. */
  method InstallBundle(run: Bundle.Run, env: Bundle.Env, fs0: map<string, string>)
    returns (run': Bundle.Run, fs: map<string, string>, r: Outcome<Bundle.Error>)
    ensures run' == if r.Pass? then run.(postProcess := run.postProcess + [Bundle.DcrdexSteps]) else run
    ensures r.Pass? ==> Bundle.InstalledFrom(fs, BinaryMoves(run))
    ensures r.Pass? ==> forall p :: p in fs0 && !Bundle.IsDst(BinaryMoves(run), p) ==> p in fs && fs[p] == fs0[p]
    ensures r.Fail? ==> r.error.FileNotFound? && exists k :: 0 <= k < |DexF| && BinaryMoves(run)[k].src == r.error.path
    ensures Bundle.Written(fs, if r.Pass? then None else Some(r.error)) == Bundle.CopyAll(AfterConfig(run, env, fs0), BinaryMoves(run))
    ensures r.Pass? <==> forall k :: 0 <= k < |DexF| ==> BinaryMoves(run)[k].src in AfterConfig(run, env, fs0)
    ensures r.Pass? ==>
      forall p :: p in AfterConfig(run, env, fs0) && !Bundle.IsDst(BinaryMoves(run), p) ==> p in fs && fs[p] == AfterConfig(run, env, fs0)[p]
  {
    run' := run;
    var fs1;
    fs1, r := InstallBundleConfig(run, env, fs0);
    if env.runtimeTuple == run.tuple {
      ConfiguredFacts(run, env, fs0);
    }
    var err;
    fs, err := Bundle.InstallBinaries(DexF, BundleDir(run), run.destination, run.tuple, fs1);
    BinaryMovesShape(run);
    if err.Some? {
      Bundle.CopyAllStopsAtMissing(fs1, BinaryMoves(run));
      Bundle.CopyAllOk(fs1, BinaryMoves(run));
      return run', fs, Fail(err.value);
    }
    Bundle.CopyAllInstalled(fs1, BinaryMoves(run));
    Bundle.CopyAllOk(fs1, BinaryMoves(run));
    forall p | p in fs1 && !Bundle.IsDst(BinaryMoves(run), p) ensures p in fs && fs[p] == fs1[p] {
      Bundle.CopyAllFrame(fs1, BinaryMoves(run), p);
    }
    run' := run.(postProcess := run.postProcess + [Bundle.DcrdexSteps]);
    return run', fs, Pass;
  }
}

/** What the three product families of the newer generation (decred.go, bitcoin.go,
    dcrdex.go) share: the component descriptor, the package-level variables gathered in
    one record, the external probes, and the loops that each family file repeats with
    only its catalogue changed — the three gates of the precondition check, the config
    writer and the remove-then-copy loop. */
module Bundle {
  import opened Wrappers
  import opened GoStrings
  import GoPath
  import SemVer
  import Config
  import Manifest

  /** `decredFiles`, with the `ConfigFolder` that `bitcoinFiles` adds ("" elsewhere). */
  datatype Component = Component(
    name: string,           // binary file name
    config: string,         // config file name, "" when there is none
    sampleFilename: string, // sample config inside the extracted bundle
    sampleMemory: string,   // the compiled-in sample config, by the name of its constant
    supportsVersion: bool,  // answers `--version`
    directory: bool,        // a directory payload rather than an executable
    configFolder: string)

  /** The package-level variables the family files read and assign. */
  datatype Run = Run(
    tuple: string, destination: string, tmpDir: string, network: string,
    forceDownload: bool, skipPGP: bool, username: string, password: string,
    decredVersion: string, bitcoinVersion: string, dcrdexVersion: string,
    postProcess: seq<Notice>)

  /** A message queued for the end of the install (`postProcess`), kept as what it is
      about; `NoticeText` renders the text the installer prints. */
  datatype Notice =
    | LightningWallet(dcrlncli: string)   // no lightning wallet yet: run `<dcrlncli> create`
    | BitcoinSignature                    // the bitcoin signature error is expected
    | DcrdexSteps                         // start and sync the wallets before dexc

  function NoticeText(n: Notice): string {
    match n
    case LightningWallet(lndw) =>
      "\nThe lightning wallet could not be automatically created.\n\nTo create a lightning wallet:\n"
      + "* Start dcrlnd\n* Run '" + lndw + " create'\n\n"
    case BitcoinSignature =>
      "\nThe bitcoin signature error that was logged is expected.\n\n"
      + "The validity of the bitcoin archive has been validated.\n\n"
    case DcrdexSteps =>
      "\nDCRDEX:\n\n* Start wallets (dcrd/dcrwallet and bitcoind) before starting dexc.\n"
      + "* Allow both wallets to synchronize completely.\n\n"
      + "please read the release notes at https://github.com/decred/dcrdex/releases for IMPORTANT NOTICES\n\n"
  }

  /** Where a family's manifest comes from, and its optional expected digest. */
  datatype Source = Source(manifestURI: string, manifestDigest: string)

  /** What the installer asks of the world outside the file map. */
  datatype Env = Env(
    runtimeTuple: string,                                 // runtimeTuple()
    isRunning: string -> Result<bool, string>,            // isRunning(name)
    versionOutput: string -> Option<string>,              // `<path> --version`; None when it fails
    appDataDir: (string, bool) -> string,                 // dcrutil.AppDataDir
    fetch: string -> Result<string, string>,              // the body DownloadFile stores
    sha256: string -> string,                             // hex SHA-256 of a file's bytes
    pgpVerify: (string, string) -> Outcome<string>,       // detached signature, signed text
    pgpVerifyAttached: string -> Outcome<string>,         // clear-signed text
    downloadURI: string -> Result<string, string>,        // getDownloadURI
    seenBefore: string -> bool,                           // seenBefore(filename)
    extract: (string, string) -> Result<map<string, string>, string>, // archive, destination: files unpacked
    gencerts: (string, string, string) -> Result<(string, string), string>, // cert and key
    createWallet: string -> Outcome<string>,              // `dcrwallet --create`
    sampleConfig: string -> string)                       // the compiled-in sample named by `sampleMemory`

  datatype Error =
    | ProbeFailed(e: string)                                   // "isRunning: %v"
    | StillRunning(names: seq<string>)                         // "Processess still running"
    | InvalidVersion(name: string, v: SemVer.Error)            // "invalid version %v: %v"
    | PartialBinaries(installed: seq<string>, missing: seq<string>)
    | PartialConfigs(installed: seq<string>, missing: seq<string>)
    | DownloadManifest(e: string)
    | ManifestDigest(path: string)
    | DownloadURI(e: string)
    | DownloadSignature(e: string)
    | SignatureIncorrect(e: string)                            // "manifest PGP signature incorrect"
    | FindTuple(m: Manifest.Error)
    | UnsupportedTuple(tuple: string)                          // bitcoinFindOS
    | TupleNotFound(which: string)                             // bitcoinFindOS
    | ManifestVersion(v: SemVer.Error)
    | NoBitcoinVersion
    | DownloadBundle(e: string)
    | BundleDigest(path: string)                               // sha256Verify of the bundle
    | ExtractBundle(e: string)
    | ConfigFailed(c: Config.Error)
    | CertState                                                // "Can't determine client certificate state"
    | CertsFailed(e: string)
    | CertExists(path: string)
    | WalletFailed(e: string)
    | FileNotFound(path: string)                               // a missing source binary

  /** `exists`, `appFileExists` and `fileutils.Exists` ask the file map. */
  predicate Exists(fs: map<string, string>, p: string) { p in fs }

  // ---------------------------------------------------------------------------
  // Gate 1: no component may be running
  // ---------------------------------------------------------------------------

  /** The liveness loop over `cat`: the names found running, in catalogue order, or
      the first probe error. Directory payloads are not probed. */
  function Liveness(cat: seq<Component>, isRunning: string -> Result<bool, string>): Result<seq<string>, string>
    decreases |cat|
  {
    if cat == [] then Ok([])
    else
      match Liveness(cat[..|cat| - 1], isRunning)
      case Err(e) => Err(e)
      case Ok(names) =>
        var c := cat[|cat| - 1];
        if c.directory then Ok(names)
        else
          match isRunning(c.name)
          case Err(e) => Err(e)
          case Ok(up) => Ok(if up then names + [c.name] else names)
  }

  predicate Probed(c: Component, isRunning: string -> Result<bool, string>) {
    !c.directory && isRunning(c.name).Ok?
  }

  predicate SeenRunning(c: Component, isRunning: string -> Result<bool, string>) {
    !c.directory && isRunning(c.name) == Ok(true)
  }

  /** The loop errs exactly when some probe errs, and otherwise lists exactly the
      running executables. */
  lemma {:induction false} LivenessSpec(cat: seq<Component>, isRunning: string -> Result<bool, string>)
    ensures Liveness(cat, isRunning).Ok? <==>
      forall k :: 0 <= k < |cat| && !cat[k].directory ==> Probed(cat[k], isRunning)
    ensures Liveness(cat, isRunning).Ok? ==> forall n ::
      n in Liveness(cat, isRunning).value <==> exists k :: 0 <= k < |cat| && SeenRunning(cat[k], isRunning) && cat[k].name == n
    decreases |cat|
  {
    if cat != [] {
      var init := cat[..|cat| - 1];
      LivenessSpec(init, isRunning);
      assert forall k :: 0 <= k < |init| ==> init[k] == cat[k];
      var c := cat[|cat| - 1];
      if Liveness(cat, isRunning).Ok? {
        var names := Liveness(cat, isRunning).value;
        forall n ensures n in names <==> exists k :: 0 <= k < |cat| && SeenRunning(cat[k], isRunning) && cat[k].name == n {
          if n in names && n !in Liveness(init, isRunning).value {
            assert SeenRunning(cat[|cat| - 1], isRunning) && c.name == n;
          }
        }
      }
    }
  }

  // ---------------------------------------------------------------------------
  // Gate 2: all or none of the versioned binaries
  // ---------------------------------------------------------------------------

  /** Paths that answered `--version` and paths that did not. */
  datatype Tally = Tally(present: seq<string>, absent: seq<string>)

  /** How many components answer `--version`: the binaries the gate expects. */
  function Versioned(cat: seq<Component>): nat
    decreases |cat|
  {
    if cat == [] then 0 else Versioned(cat[..|cat| - 1]) + (if cat[|cat| - 1].supportsVersion then 1 else 0)
  }

  /** The version loop: each versioned binary at `dest/<name>` is run with `--version`;
      a failed run means "not installed", output without a version is an error. */
  function VersionScan(cat: seq<Component>, dest: string, probe: string -> Option<string>)
    : Result<Tally, (string, SemVer.Error)>
    decreases |cat|
  {
    if cat == [] then Ok(Tally([], []))
    else VersionStep(VersionScan(cat[..|cat| - 1], dest, probe), cat[|cat| - 1], dest, probe)
  }

  /** One turn of the version loop. */
  function VersionStep(acc: Result<Tally, (string, SemVer.Error)>, c: Component, dest: string,
                       probe: string -> Option<string>): Result<Tally, (string, SemVer.Error)>
  {
    match acc
    case Err(e) => Err(e)
    case Ok(t) =>
      var path := GoPath.Join(dest, c.name);
      if !c.supportsVersion then Ok(t)
      else
        match probe(path)
        case None => Ok(t.(absent := t.absent + [path]))
        case Some(out) =>
          match SemVer.ExtractSemVer(out)
          case Err(e) => Err((c.name, e))
          case Ok(_) => Ok(t.(present := t.present + [path]))
  }

  lemma VersionScanSnoc(cat: seq<Component>, k: nat, dest: string, probe: string -> Option<string>)
    requires k < |cat|
    ensures VersionScan(cat[..k + 1], dest, probe) == VersionStep(VersionScan(cat[..k], dest, probe), cat[k], dest, probe)
  {
    assert cat[..k + 1][..k] == cat[..k];
  }

  /** Every versioned binary ends up in exactly one of the two lists. */
  lemma {:induction false} VersionScanCounts(cat: seq<Component>, dest: string, probe: string -> Option<string>)
    requires VersionScan(cat, dest, probe).Ok?
    ensures var t := VersionScan(cat, dest, probe).value; |t.present| + |t.absent| == Versioned(cat)
    decreases |cat|
  {
    if cat != [] {
      VersionScanCounts(cat[..|cat| - 1], dest, probe);
    }
  }

  /** `p` is where the versioned component `c` lives, and its `--version` run succeeded. */
  predicate Answered(c: Component, dest: string, probe: string -> Option<string>, p: string) {
    c.supportsVersion && p == GoPath.Join(dest, c.name) && probe(p).Some?
  }

  /** A binary is counted as installed exactly when its `--version` run succeeds (and
      then the output held a version). */
  lemma {:induction false} VersionScanPresent(cat: seq<Component>, dest: string, probe: string -> Option<string>)
    requires VersionScan(cat, dest, probe).Ok?
    ensures forall p :: p in VersionScan(cat, dest, probe).value.present <==>
      exists k :: 0 <= k < |cat| && Answered(cat[k], dest, probe, p)
    decreases |cat|
  {
    if cat != [] {
      var init, c := cat[..|cat| - 1], cat[|cat| - 1];
      assert VersionScan(cat, dest, probe) == VersionStep(VersionScan(init, dest, probe), c, dest, probe);
      VersionStepPresent(VersionScan(init, dest, probe), c, dest, probe);
      VersionScanPresent(init, dest, probe);
      forall p ensures p in VersionScan(cat, dest, probe).value.present <==>
        exists k :: 0 <= k < |cat| && Answered(cat[k], dest, probe, p)
      {
        AnsweredSnoc(cat, init, dest, probe, p);
      }
    }
  }

  lemma AnsweredSnoc(cat: seq<Component>, init: seq<Component>, dest: string, probe: string -> Option<string>, p: string)
    requires cat != [] && init == cat[..|cat| - 1]
    ensures (exists k :: 0 <= k < |cat| && Answered(cat[k], dest, probe, p)) <==>
      (exists k :: 0 <= k < |init| && Answered(init[k], dest, probe, p))
      || Answered(cat[|cat| - 1], dest, probe, p)
  {
    if exists k :: 0 <= k < |cat| && Answered(cat[k], dest, probe, p) {
      var k :| 0 <= k < |cat| && Answered(cat[k], dest, probe, p);
      if k < |init| {
        assert init[k] == cat[k];
      }
    }
    if exists k :: 0 <= k < |init| && Answered(init[k], dest, probe, p) {
      var k :| 0 <= k < |init| && Answered(init[k], dest, probe, p);
      assert init[k] == cat[k];
    }
  }

  /** One turn adds the probed path exactly when the binary answered. */
  lemma VersionStepPresent(acc: Result<Tally, (string, SemVer.Error)>, c: Component, dest: string,
                           probe: string -> Option<string>)
    requires VersionStep(acc, c, dest, probe).Ok?
    ensures acc.Ok?
    ensures forall p :: p in VersionStep(acc, c, dest, probe).value.present <==>
      p in acc.value.present || Answered(c, dest, probe, p)
  {
  }

  // ---------------------------------------------------------------------------
  // Gate 3: all or none of the config files
  // ---------------------------------------------------------------------------

  /** How many components come with a config file. */
  function WithConfig(cat: seq<Component>): nat
    decreases |cat|
  {
    if cat == [] then 0 else WithConfig(cat[..|cat| - 1]) + (if cat[|cat| - 1].config != "" then 1 else 0)
  }

  /** Where a component's config file lives, given the folder its family uses. */
  function ConfigPath(dirOf: Component -> string, c: Component): string {
    GoPath.Join(dirOf(c), c.config)
  }

  /** The config loop: present and absent config files, in catalogue order. */
  function ConfigScan(cat: seq<Component>, dirOf: Component -> string, fs: map<string, string>): (t: Tally)
    ensures |t.present| + |t.absent| == WithConfig(cat)
    decreases |cat|
  {
    if cat == [] then Tally([], [])
    else
      var t := ConfigScan(cat[..|cat| - 1], dirOf, fs);
      var c := cat[|cat| - 1];
      var path := ConfigPath(dirOf, c);
      if c.config == "" then t
      else if Exists(fs, path) then t.(present := t.present + [path])
      else t.(absent := t.absent + [path])
  }

  /** The installed config files are exactly those of the catalogue found in the map. */
  lemma {:induction false} ConfigScanPresent(cat: seq<Component>, dirOf: Component -> string, fs: map<string, string>)
    ensures forall p :: p in ConfigScan(cat, dirOf, fs).present <==>
      exists k :: 0 <= k < |cat| && cat[k].config != "" && p == ConfigPath(dirOf, cat[k]) && p in fs
    decreases |cat|
  {
    if cat != [] {
      var init := cat[..|cat| - 1];
      ConfigScanPresent(init, dirOf, fs);
      assert forall k :: 0 <= k < |init| ==> init[k] == cat[k];
      var t := ConfigScan(cat, dirOf, fs);
      forall p | p in t.present
        ensures exists k :: 0 <= k < |cat| && cat[k].config != "" && p == ConfigPath(dirOf, cat[k]) && p in fs
      {
        if p !in ConfigScan(init, dirOf, fs).present {
          assert cat[|cat| - 1].config != "" && p == ConfigPath(dirOf, cat[|cat| - 1]);
        }
      }
    }
  }

  // ---------------------------------------------------------------------------
  // The three gates in order
  // ---------------------------------------------------------------------------

  lemma CountsSnoc(cat: seq<Component>, k: nat)
    requires k < |cat|
    ensures Versioned(cat[..k + 1]) == Versioned(cat[..k]) + (if cat[k].supportsVersion then 1 else 0)
    ensures WithConfig(cat[..k + 1]) == WithConfig(cat[..k]) + (if cat[k].config != "" then 1 else 0)
  {
    assert cat[..k + 1][..k] == cat[..k];
  }

  /** An all-or-nothing count: none of `expected`, or all of them. */
  predicate AllOrNothing(n: nat, expected: nat) { n == 0 || n == expected }

  /** What a family's `preconditions…Install` returns: on a foreign tuple it passes at
      once; otherwise the liveness gate, the binary gate and the config gate run in that
      order and the first that fails decides the error. */
  function PreconditionsOf(tuple: string, env: Env, cat: seq<Component>, dest: string,
                           dirOf: Component -> string, fs: map<string, string>): Outcome<Error>
  {
    if env.runtimeTuple != tuple then Pass
    else
      match Liveness(cat, env.isRunning)
      case Err(e) => Fail(ProbeFailed(e))
      case Ok(running) =>
        if |running| > 0 then Fail(StillRunning(running))
        else
          match VersionScan(cat, dest, env.versionOutput)
          case Err((name, e)) => Fail(InvalidVersion(name, e))
          case Ok(bins) =>
            if |bins.present| != 0 && |bins.present| != |bins.present| + |bins.absent| then
              Fail(PartialBinaries(bins.present, bins.absent))
            else
              var confs := ConfigScan(cat, dirOf, fs);
              if |confs.present| != 0 && |confs.present| != |confs.present| + |confs.absent| then
                Fail(PartialConfigs(confs.present, confs.absent))
              else Pass
  }

  /** The all-or-nothing law: on the native tuple the check passes exactly when every
      probe answers, nothing runs, every version output parses, the installed versioned
      binaries are none or all of them, and the present config files are none or all. */
  lemma PreconditionsLaw(tuple: string, env: Env, cat: seq<Component>, dest: string,
                         dirOf: Component -> string, fs: map<string, string>)
    requires env.runtimeTuple == tuple
    ensures PreconditionsOf(tuple, env, cat, dest, dirOf, fs) == Pass <==>
      && Liveness(cat, env.isRunning) == Ok([])
      && VersionScan(cat, dest, env.versionOutput).Ok?
      && AllOrNothing(|VersionScan(cat, dest, env.versionOutput).value.present|, Versioned(cat))
      && AllOrNothing(|ConfigScan(cat, dirOf, fs).present|, WithConfig(cat))
  {
    if Liveness(cat, env.isRunning) == Ok([]) && VersionScan(cat, dest, env.versionOutput).Ok? {
      VersionScanCounts(cat, dest, env.versionOutput);
    }
  }

  /** A failure in an earlier gate hides what the later gates would say: the config
      gate is only consulted once the binary gate has passed. */
  lemma BinaryGateFirst(tuple: string, env: Env, cat: seq<Component>, dest: string,
                        dirOf: Component -> string, fs: map<string, string>, fs': map<string, string>)
    requires env.runtimeTuple == tuple
    requires PreconditionsOf(tuple, env, cat, dest, dirOf, fs).Fail?
    requires !PreconditionsOf(tuple, env, cat, dest, dirOf, fs).error.PartialConfigs?
    ensures PreconditionsOf(tuple, env, cat, dest, dirOf, fs') == PreconditionsOf(tuple, env, cat, dest, dirOf, fs)
  {
  }

  /** `preconditions…Install`: the three loops of the source in order, each below as
      a method of its own. */
  method Preconditions(tuple: string, env: Env, cat: seq<Component>, dest: string,
                       dirOf: Component -> string, fs: map<string, string>) returns (r: Outcome<Error>)
    ensures r == PreconditionsOf(tuple, env, cat, dest, dirOf, fs)
  {
    if env.runtimeTuple != tuple {
      return Pass;
    }
    var isRunningList := ProbeRunning(cat, env.isRunning);
    if isRunningList.Err? {
      return Fail(ProbeFailed(isRunningList.error));
    }
    if |isRunningList.value| > 0 {
      return Fail(StillRunning(isRunningList.value));
    }
    var bins := ProbeVersions(cat, dest, env.versionOutput);
    if bins.Err? {
      return Fail(InvalidVersion(bins.error.0, bins.error.1));
    }
    var currentlyInstalled, expectedInstalled := |bins.value.present|, |bins.value.present| + |bins.value.absent|;
    if currentlyInstalled != 0 && currentlyInstalled != expectedInstalled {
      return Fail(PartialBinaries(bins.value.present, bins.value.absent));
    }
    var confs := ProbeConfigs(cat, dirOf, fs);
    var currentConfigFiles, expectedConfigFiles := |confs.present|, |confs.present| + |confs.absent|;
    if currentConfigFiles != 0 && currentConfigFiles != expectedConfigFiles {
      return Fail(PartialConfigs(confs.present, confs.absent));
    }
    return Pass;
  }

  /** The liveness loop: every executable is probed, a probe error aborts at once,
      and the running names are collected. */
  method ProbeRunning(cat: seq<Component>, isRunning: string -> Result<bool, string>)
    returns (r: Result<seq<string>, string>)
    ensures r == Liveness(cat, isRunning)
  {
    var isRunningList: seq<string> := [];
    for k := 0 to |cat|
      invariant Liveness(cat[..k], isRunning) == Ok(isRunningList)
    {
      assert cat[..k + 1][..k] == cat[..k];
      if cat[k].directory {
        continue;
      }
      var ok := isRunning(cat[k].name);
      if ok.Err? {
        LivenessStuck(cat, k + 1, isRunning);
        return Err(ok.error);
      }
      if ok.value {
        isRunningList := isRunningList + [cat[k].name];
      }
    }
    assert cat[..|cat|] == cat;
    return Ok(isRunningList);
  }

  /** The version loop, with its two counters. */
  method ProbeVersions(cat: seq<Component>, dest: string, probe: string -> Option<string>)
    returns (r: Result<Tally, (string, SemVer.Error)>)
    ensures r == VersionScan(cat, dest, probe)
  {
    var currentlyInstalled, expectedInstalled := 0, 0;
    var installedBins, notInstalledBins: seq<string> := [], [];
    for k := 0 to |cat|
      invariant VersionScan(cat[..k], dest, probe) == Ok(Tally(installedBins, notInstalledBins))
      invariant currentlyInstalled == |installedBins|
      invariant expectedInstalled == |installedBins| + |notInstalledBins|
    {
      VersionScanSnoc(cat, k, dest, probe);
      var filename := GoPath.Join(dest, cat[k].name);
      if !cat[k].supportsVersion {
        continue;
      }
      expectedInstalled := expectedInstalled + 1;
      var version := probe(filename);
      if version.None? {
        notInstalledBins := notInstalledBins + [filename];
        continue;
      }
      var v := SemVer.ExtractSemVer(version.value);
      if v.Err? {
        VersionScanStuck(cat, k + 1, dest, probe);
        return Err((cat[k].name, v.error));
      }
      currentlyInstalled := currentlyInstalled + 1;
      installedBins := installedBins + [filename];
    }
    assert cat[..|cat|] == cat;
    return Ok(Tally(installedBins, notInstalledBins));
  }

  /** The config loop, with its two counters. */
  method ProbeConfigs(cat: seq<Component>, dirOf: Component -> string, fs: map<string, string>)
    returns (t: Tally)
    ensures t == ConfigScan(cat, dirOf, fs)
  {
    var currentConfigFiles, expectedConfigFiles := 0, 0;
    var installedConfigs, notInstalledConfigs: seq<string> := [], [];
    for k := 0 to |cat|
      invariant ConfigScan(cat[..k], dirOf, fs) == Tally(installedConfigs, notInstalledConfigs)
      invariant currentConfigFiles == |installedConfigs|
      invariant expectedConfigFiles == |installedConfigs| + |notInstalledConfigs|
    {
      assert cat[..k + 1][..k] == cat[..k];
      if cat[k].config == "" {
        continue;
      }
      expectedConfigFiles := expectedConfigFiles + 1;
      var filename := GoPath.Join(dirOf(cat[k]), cat[k].config);
      if Exists(fs, filename) {
        currentConfigFiles := currentConfigFiles + 1;
        installedConfigs := installedConfigs + [filename];
        continue;
      }
      notInstalledConfigs := notInstalledConfigs + [filename];
    }
    assert cat[..|cat|] == cat;
    return Tally(installedConfigs, notInstalledConfigs);
  }

  /** Once the liveness loop has failed, it stays failed with the same error. */
  lemma {:induction false} LivenessStuck(cat: seq<Component>, k: nat, isRunning: string -> Result<bool, string>)
    requires k <= |cat| && Liveness(cat[..k], isRunning).Err?
    ensures Liveness(cat, isRunning) == Liveness(cat[..k], isRunning)
    decreases |cat| - k
  {
    if k < |cat| {
      assert cat[..k + 1][..k] == cat[..k];
      LivenessStuck(cat, k + 1, isRunning);
    } else {
      assert cat[..k] == cat;
    }
  }

  lemma {:induction false} VersionScanStuck(cat: seq<Component>, k: nat, dest: string, probe: string -> Option<string>)
    requires k <= |cat| && VersionScan(cat[..k], dest, probe).Err?
    ensures VersionScan(cat, dest, probe) == VersionScan(cat[..k], dest, probe)
    decreases |cat| - k
  {
    if k < |cat| {
      VersionScanSnoc(cat, k, dest, probe);
      VersionScanStuck(cat, k + 1, dest, probe);
    } else {
      assert cat[..k] == cat;
    }
  }

  // ---------------------------------------------------------------------------
  // Writing the config files that are missing
  // ---------------------------------------------------------------------------

  /** Binary names are non-empty, free of `/` and `.`, and pairwise distinct. */
  predicate PlainNames(cat: seq<Component>) {
    && (forall k :: 0 <= k < |cat| ==> cat[k].name != "" && '/' !in cat[k].name && '.' !in cat[k].name)
    && (forall i, j :: 0 <= i < j < |cat| ==> cat[i].name != cat[j].name)
  }

  /** A name of lower-case letters and hyphens is a plain name. */
  lemma LowerIsPlain(s: string)
    requires s != [] && forall i :: 0 <= i < |s| ==> 'a' <= s[i] <= 'z' || s[i] == '-'
    ensures s != "" && '/' !in s && '.' !in s
  {
  }

  /** Where a component's sample config comes from: a file of the extracted bundle, or
      a text compiled into the installer. */
  datatype Sample = FromFile(path: string) | FromMemory(text: string)

  /** The file map after a loop, and the error that stopped it, if any. The source
      returns at the error; what was written before it stays written. */
  datatype Written = Written(fs: map<string, string>, err: Option<Error>)

  /** One turn of the config loop: a component with a config whose file is not there
      yet gets its sample rendered with its overrides and written. */
  function ConfigStep(w: Written, c: Component, dirOf: Component -> string, sampleOf: Component -> Sample,
                      overridesOf: Component -> seq<Config.Override>): Written
  {
    var dst := ConfigPath(dirOf, c);
    if w.err.Some? || c.config == "" || Exists(w.fs, dst) then w
    else
      match sampleOf(c)
      case FromFile(p) =>
        if p !in w.fs then Written(w.fs, Some(ConfigFailed(Config.OpenFailed(p))))
        else Written(w.fs[dst := Config.Render(w.fs[p], overridesOf(c))], None)
      case FromMemory(t) => Written(w.fs[dst := Config.Render(t, overridesOf(c))], None)
  }

  /** The config loop of `install…BundleConfig`, over the whole catalogue. */
  function WriteConfigs(cat: seq<Component>, dirOf: Component -> string, sampleOf: Component -> Sample,
                        overridesOf: Component -> seq<Config.Override>, fs: map<string, string>): Written
    decreases |cat|
  {
    if cat == [] then Written(fs, None)
    else ConfigStep(WriteConfigs(cat[..|cat| - 1], dirOf, sampleOf, overridesOf, fs), cat[|cat| - 1], dirOf, sampleOf, overridesOf)
  }

  method InstallConfigs(cat: seq<Component>, dirOf: Component -> string, sampleOf: Component -> Sample,
                        overridesOf: Component -> seq<Config.Override>, fs0: map<string, string>)
    returns (fs: map<string, string>, err: Option<Error>)
    ensures Written(fs, err) == WriteConfigs(cat, dirOf, sampleOf, overridesOf, fs0)
  {
    fs := fs0;
    for k := 0 to |cat|
      invariant WriteConfigs(cat[..k], dirOf, sampleOf, overridesOf, fs0) == Written(fs, None)
    {
      assert cat[..k + 1][..k] == cat[..k];
      if cat[k].config == "" {
        continue;
      }
      // Check if the config file is already installed.
      var dst := GoPath.Join(dirOf(cat[k]), cat[k].config);
      if Exists(fs, dst) {
        continue;
      }
      var conf: Result<string, Config.Error>;
      match sampleOf(cat[k]) {
        case FromFile(p) => conf := Config.CreateConfigFromFile(fs, p, overridesOf(cat[k]));
        case FromMemory(t) => conf := Config.CreateConfigFromMemory(t, overridesOf(cat[k]));
      }
      if conf.Err? {
        WriteConfigsStuck(cat, k + 1, dirOf, sampleOf, overridesOf, fs0);
        return fs, Some(ConfigFailed(conf.error));
      }
      fs := fs[dst := conf.value];
    }
    assert cat[..|cat|] == cat;
    return fs, None;
  }

  lemma {:induction false} WriteConfigsStuck(cat: seq<Component>, k: nat, dirOf: Component -> string,
                                             sampleOf: Component -> Sample,
                                             overridesOf: Component -> seq<Config.Override>, fs: map<string, string>)
    requires k <= |cat| && WriteConfigs(cat[..k], dirOf, sampleOf, overridesOf, fs).err.Some?
    ensures WriteConfigs(cat, dirOf, sampleOf, overridesOf, fs) == WriteConfigs(cat[..k], dirOf, sampleOf, overridesOf, fs)
    decreases |cat| - k
  {
    if k < |cat| {
      assert cat[..k + 1][..k] == cat[..k];
      WriteConfigsStuck(cat, k + 1, dirOf, sampleOf, overridesOf, fs);
    } else {
      assert cat[..k] == cat;
    }
  }

  /** An existing file is never rewritten, and the only files added are config files
      of the catalogue. */
  lemma {:induction false} WriteConfigsKeepExisting(cat: seq<Component>, dirOf: Component -> string,
                                                    sampleOf: Component -> Sample,
                                                    overridesOf: Component -> seq<Config.Override>, fs: map<string, string>)
    ensures var w := WriteConfigs(cat, dirOf, sampleOf, overridesOf, fs);
      forall p :: p in fs ==> p in w.fs && w.fs[p] == fs[p]
    ensures var w := WriteConfigs(cat, dirOf, sampleOf, overridesOf, fs);
      forall p :: p in w.fs && p !in fs ==> exists k :: 0 <= k < |cat| && cat[k].config != "" && p == ConfigPath(dirOf, cat[k])
    decreases |cat|
  {
    if cat != [] {
      var init := cat[..|cat| - 1];
      WriteConfigsKeepExisting(init, dirOf, sampleOf, overridesOf, fs);
      assert forall k :: 0 <= k < |init| ==> init[k] == cat[k];
      var w := WriteConfigs(cat, dirOf, sampleOf, overridesOf, fs);
      var w0 := WriteConfigs(init, dirOf, sampleOf, overridesOf, fs);
      forall p | p in w.fs && p !in fs
        ensures exists k :: 0 <= k < |cat| && cat[k].config != "" && p == ConfigPath(dirOf, cat[k])
      {
        if p !in w0.fs {
          assert cat[|cat| - 1].config != "" && p == ConfigPath(dirOf, cat[|cat| - 1]);
        }
      }
    }
  }

  /** A path that is no config file of the catalogue comes out of the loop as it went in. */
  lemma WriteConfigsElsewhere(cat: seq<Component>, dirOf: Component -> string, sampleOf: Component -> Sample,
                              overridesOf: Component -> seq<Config.Override>, fs: map<string, string>, p: string)
    requires forall k :: 0 <= k < |cat| && cat[k].config != "" ==> p != ConfigPath(dirOf, cat[k])
    ensures var w := WriteConfigs(cat, dirOf, sampleOf, overridesOf, fs);
      (p in w.fs <==> p in fs) && (p in fs ==> w.fs[p] == fs[p])
  {
    WriteConfigsKeepExisting(cat, dirOf, sampleOf, overridesOf, fs);
  }

  /** The loop fails only on a sample file that cannot be opened. */
  lemma {:induction false} WriteConfigsFailure(cat: seq<Component>, dirOf: Component -> string,
                                               sampleOf: Component -> Sample,
                                               overridesOf: Component -> seq<Config.Override>, fs: map<string, string>)
    requires WriteConfigs(cat, dirOf, sampleOf, overridesOf, fs).err.Some?
    ensures var w := WriteConfigs(cat, dirOf, sampleOf, overridesOf, fs);
      exists k :: 0 <= k < |cat| && sampleOf(cat[k]).FromFile? && sampleOf(cat[k]).path !in w.fs
        && w.err == Some(ConfigFailed(Config.OpenFailed(sampleOf(cat[k]).path)))
    decreases |cat|
  {
    var n := |cat| - 1;
    var init := cat[..n];
    assert forall k :: 0 <= k < n ==> init[k] == cat[k];
    if WriteConfigs(init, dirOf, sampleOf, overridesOf, fs).err.Some? {
      WriteConfigsFailure(init, dirOf, sampleOf, overridesOf, fs);
    } else {
      assert sampleOf(cat[n]).FromFile?;
    }
  }

  /** After a successful loop every config file of the catalogue is present. */
  lemma {:induction false} WriteConfigsComplete(cat: seq<Component>, dirOf: Component -> string,
                                                sampleOf: Component -> Sample,
                                                overridesOf: Component -> seq<Config.Override>, fs: map<string, string>)
    requires WriteConfigs(cat, dirOf, sampleOf, overridesOf, fs).err.None?
    ensures forall k :: 0 <= k < |cat| && cat[k].config != "" ==>
      ConfigPath(dirOf, cat[k]) in WriteConfigs(cat, dirOf, sampleOf, overridesOf, fs).fs
    decreases |cat|
  {
    if cat != [] {
      var n := |cat| - 1;
      var init := cat[..n];
      assert forall k :: 0 <= k < n ==> init[k] == cat[k];
      WriteConfigsComplete(init, dirOf, sampleOf, overridesOf, fs);
    }
  }

  /** The text a sample stands for in the file map `fs`. */
  function SampleText(fs: map<string, string>, s: Sample): Option<string> {
    match s
    case FromFile(p) => if p in fs then Some(fs[p]) else None
    case FromMemory(t) => Some(t)
  }

  /** The config files of a catalogue are distinct, and no sample file is one of them. */
  predicate Separate(cat: seq<Component>, dirOf: Component -> string, sampleOf: Component -> Sample) {
    && (forall i, j :: 0 <= i < j < |cat| && cat[i].config != "" && cat[j].config != "" ==>
          ConfigPath(dirOf, cat[i]) != ConfigPath(dirOf, cat[j]))
    && (forall i, j :: 0 <= i < |cat| && 0 <= j < |cat| && cat[i].config != "" && sampleOf(cat[j]).FromFile? ==>
          ConfigPath(dirOf, cat[i]) != sampleOf(cat[j]).path)
  }

  /** A config file is missing to the last component exactly when it was missing at
      the start, and the last component's sample reads the same. */
  lemma LastSeesStart(cat: seq<Component>, dirOf: Component -> string, sampleOf: Component -> Sample,
                      overridesOf: Component -> seq<Config.Override>, fs: map<string, string>)
    requires cat != [] && Separate(cat, dirOf, sampleOf)
    ensures var w0 := WriteConfigs(cat[..|cat| - 1], dirOf, sampleOf, overridesOf, fs);
      var c := cat[|cat| - 1];
      && (c.config != "" ==> (ConfigPath(dirOf, c) in w0.fs <==> ConfigPath(dirOf, c) in fs))
      && SampleText(w0.fs, sampleOf(c)) == SampleText(fs, sampleOf(c))
  {
    var n := |cat| - 1;
    var init := cat[..n];
    assert forall k :: 0 <= k < n ==> init[k] == cat[k];
    var c := cat[n];
    if c.config != "" {
      forall k | 0 <= k < n && init[k].config != "" ensures ConfigPath(dirOf, c) != ConfigPath(dirOf, init[k]) {
        assert ConfigPath(dirOf, cat[k]) != ConfigPath(dirOf, cat[n]);
      }
      WriteConfigsElsewhere(init, dirOf, sampleOf, overridesOf, fs, ConfigPath(dirOf, c));
    }
    if sampleOf(c).FromFile? {
      forall k | 0 <= k < n && init[k].config != "" ensures sampleOf(c).path != ConfigPath(dirOf, init[k]) {
        assert ConfigPath(dirOf, cat[k]) != sampleOf(cat[n]).path;
      }
      WriteConfigsElsewhere(init, dirOf, sampleOf, overridesOf, fs, sampleOf(c).path);
    }
  }

  /** A config file the loop needs to write, and the sample it would render. */
  predicate NeedsConfig(c: Component, dirOf: Component -> string, fs: map<string, string>) {
    c.config != "" && ConfigPath(dirOf, c) !in fs
  }

  /** When config and sample files are separate, the loop fails exactly when a sample
      file it needs is missing. */
  lemma {:induction false} WriteConfigsOk(cat: seq<Component>, dirOf: Component -> string,
                                          sampleOf: Component -> Sample,
                                          overridesOf: Component -> seq<Config.Override>, fs: map<string, string>)
    requires Separate(cat, dirOf, sampleOf)
    ensures WriteConfigs(cat, dirOf, sampleOf, overridesOf, fs).err.None? <==>
      forall k :: 0 <= k < |cat| && NeedsConfig(cat[k], dirOf, fs) ==> SampleText(fs, sampleOf(cat[k])).Some?
    decreases |cat|
  {
    if cat != [] {
      var init := cat[..|cat| - 1];
      assert forall k :: 0 <= k < |init| ==> init[k] == cat[k];
      assert Separate(init, dirOf, sampleOf);
      WriteConfigsOk(init, dirOf, sampleOf, overridesOf, fs);
      LastSeesStart(cat, dirOf, sampleOf, overridesOf, fs);
    }
  }

  /** After a successful loop, every config file that was missing holds its sample
      rendered with its overrides. */
  lemma {:induction false} WriteConfigsRender(cat: seq<Component>, dirOf: Component -> string,
                                              sampleOf: Component -> Sample,
                                              overridesOf: Component -> seq<Config.Override>, fs: map<string, string>)
    requires Separate(cat, dirOf, sampleOf)
    requires WriteConfigs(cat, dirOf, sampleOf, overridesOf, fs).err.None?
    ensures var w := WriteConfigs(cat, dirOf, sampleOf, overridesOf, fs);
      forall k :: 0 <= k < |cat| && NeedsConfig(cat[k], dirOf, fs) ==>
        ConfigPath(dirOf, cat[k]) in w.fs && SampleText(fs, sampleOf(cat[k])).Some? &&
        w.fs[ConfigPath(dirOf, cat[k])] == Config.Render(SampleText(fs, sampleOf(cat[k])).value, overridesOf(cat[k]))
    decreases |cat|
  {
    if cat != [] {
      var n := |cat| - 1;
      var init := cat[..n];
      assert forall k :: 0 <= k < n ==> init[k] == cat[k];
      assert Separate(init, dirOf, sampleOf);
      WriteConfigsRender(init, dirOf, sampleOf, overridesOf, fs);
      LastSeesStart(cat, dirOf, sampleOf, overridesOf, fs);
      var w := WriteConfigs(cat, dirOf, sampleOf, overridesOf, fs);
      var w0 := WriteConfigs(init, dirOf, sampleOf, overridesOf, fs);
      forall k | 0 <= k < n && NeedsConfig(cat[k], dirOf, fs)
        ensures ConfigPath(dirOf, cat[k]) in w.fs && w.fs[ConfigPath(dirOf, cat[k])] == w0.fs[ConfigPath(dirOf, cat[k])]
      {
        if NeedsConfig(cat[n], dirOf, fs) {
          assert ConfigPath(dirOf, cat[k]) != ConfigPath(dirOf, cat[n]);
        }
      }
    }
  }

  // ---------------------------------------------------------------------------
  // Copying the binaries into place
  // ---------------------------------------------------------------------------

  /** One copy of the binary loop: from the extracted bundle to the destination. */
  datatype Move = Move(src: string, dst: string)

  /** `strings.HasPrefix(tuple, "windows")`. */
  predicate IsWindows(tuple: string) { "windows" <= tuple }

  /** The source and destination of a component: `<srcDir>/<name>` and `<dest>/<name>`,
      both with `.exe` appended for an executable on a `windows*` tuple. */
  function BinaryMove(srcDir: string, dest: string, tuple: string, c: Component): Move {
    Move(GoPath.Join(srcDir, c.name) + ExeSuffix(tuple, c), GoPath.Join(dest, c.name) + ExeSuffix(tuple, c))
  }

  function ExeSuffix(tuple: string, c: Component): (e: string)
    ensures e == "" || e == ".exe"
  {
    if !c.directory && IsWindows(tuple) then ".exe" else ""
  }

  function Moves(cat: seq<Component>, srcDir: string, dest: string, tuple: string): (m: seq<Move>)
    ensures |m| == |cat|
    decreases |cat|
  {
    if cat == [] then [] else Moves(cat[..|cat| - 1], srcDir, dest, tuple) + [BinaryMove(srcDir, dest, tuple, cat[|cat| - 1])]
  }

  lemma {:induction false} MovesAt(cat: seq<Component>, srcDir: string, dest: string, tuple: string, k: nat)
    requires k < |cat|
    ensures Moves(cat, srcDir, dest, tuple)[k] == BinaryMove(srcDir, dest, tuple, cat[k])
    decreases |cat|
  {
    if k < |cat| - 1 {
      MovesAt(cat[..|cat| - 1], srcDir, dest, tuple, k);
    }
  }

  /** One turn of the remove-then-copy loop: a missing source stops it with the copies
      made so far in place; otherwise the destination gets the source's bytes. */
  function CopyStep(w: Written, m: Move): Written {
    if w.err.Some? then w
    else if m.src !in w.fs then Written(w.fs, Some(FileNotFound(m.src)))
    else Written(w.fs[m.dst := w.fs[m.src]], None)
  }

  function CopyAll(fs: map<string, string>, moves: seq<Move>): Written
    decreases |moves|
  {
    if moves == [] then Written(fs, None)
    else CopyStep(CopyAll(fs, moves[..|moves| - 1]), moves[|moves| - 1])
  }

  lemma CopyAllSnoc(fs: map<string, string>, moves: seq<Move>, m: Move)
    ensures CopyAll(fs, moves + [m]) == CopyStep(CopyAll(fs, moves), m)
  {
    assert (moves + [m])[..|moves|] == moves;
  }

  /** `install…Bundle`'s binary loop, over the moves of `cat`. */
  method InstallBinaries(cat: seq<Component>, srcDir: string, dest: string, tuple: string, fs0: map<string, string>)
    returns (fs: map<string, string>, err: Option<Error>)
    ensures Written(fs, err) == CopyAll(fs0, Moves(cat, srcDir, dest, tuple))
  {
    fs := fs0;
    for k := 0 to |cat|
      invariant CopyAll(fs0, Moves(cat[..k], srcDir, dest, tuple)) == Written(fs, None)
    {
      var m := BinaryMove(srcDir, dest, tuple, cat[k]);
      MovesSnoc(cat, k, srcDir, dest, tuple);
      CopyAllSnoc(fs0, Moves(cat[..k], srcDir, dest, tuple), m);
      if !Exists(fs, m.src) {
        CopyAllStuck(fs0, cat, k + 1, srcDir, dest, tuple);
        return fs, Some(FileNotFound(m.src));
      }
      var contents := fs[m.src];
      RemoveThenWrite(fs, m.dst, contents);
      if Exists(fs, m.dst) {
        fs := fs - {m.dst};
      }
      fs := fs[m.dst := contents];
      // os.Chmod(dst, 0755) is best effort: its error is ignored.
    }
    assert cat[..|cat|] == cat;
    return fs, None;
  }

  lemma MovesSnoc(cat: seq<Component>, k: nat, srcDir: string, dest: string, tuple: string)
    requires k < |cat|
    ensures Moves(cat[..k + 1], srcDir, dest, tuple) == Moves(cat[..k], srcDir, dest, tuple) + [BinaryMove(srcDir, dest, tuple, cat[k])]
  {
    assert cat[..k + 1][..k] == cat[..k];
  }

  /** Removing a file before writing it changes nothing in the end. */
  lemma RemoveThenWrite(fs: map<string, string>, p: string, v: string)
    ensures (fs - {p})[p := v] == fs[p := v]
  {
  }

  lemma {:induction false} CopyAllStuck(fs: map<string, string>, cat: seq<Component>, k: nat,
                                        srcDir: string, dest: string, tuple: string)
    requires k <= |cat| && CopyAll(fs, Moves(cat[..k], srcDir, dest, tuple)).err.Some?
    ensures CopyAll(fs, Moves(cat, srcDir, dest, tuple)) == CopyAll(fs, Moves(cat[..k], srcDir, dest, tuple))
    decreases |cat| - k
  {
    if k < |cat| {
      assert cat[..k + 1][..k] == cat[..k];
      CopyAllSnoc(fs, Moves(cat[..k], srcDir, dest, tuple), BinaryMove(srcDir, dest, tuple, cat[k]));
      CopyAllStuck(fs, cat, k + 1, srcDir, dest, tuple);
    } else {
      assert cat[..k] == cat;
    }
  }

  /** No destination is a source, and no two moves share a destination. */
  predicate Disjoint(moves: seq<Move>) {
    && (forall i, j :: 0 <= i < |moves| && 0 <= j < |moves| ==> moves[i].dst != moves[j].src)
    && (forall i, j :: 0 <= i < j < |moves| ==> moves[i].dst != moves[j].dst)
  }

  predicate IsDst(moves: seq<Move>, p: string) {
    exists k :: 0 <= k < |moves| && moves[k].dst == p
  }

  /** A file that is no destination comes out of the loop as it went in. */
  lemma {:induction false} CopyAllFrame(fs: map<string, string>, moves: seq<Move>, p: string)
    requires !IsDst(moves, p)
    ensures var w := CopyAll(fs, moves); (p in w.fs <==> p in fs) && (p in fs ==> w.fs[p] == fs[p])
    decreases |moves|
  {
    if moves != [] {
      var init := moves[..|moves| - 1];
      assert forall k :: 0 <= k < |init| ==> init[k] == moves[k];
      CopyAllFrame(fs, init, p);
    }
  }

  /** With disjoint moves the loop succeeds exactly when every source is there. */
  lemma {:induction false} CopyAllOk(fs: map<string, string>, moves: seq<Move>)
    requires Disjoint(moves)
    ensures CopyAll(fs, moves).err.None? <==> forall k :: 0 <= k < |moves| ==> moves[k].src in fs
    decreases |moves|
  {
    if moves != [] {
      var n := |moves| - 1;
      var init := moves[..n];
      assert forall k :: 0 <= k < n ==> init[k] == moves[k];
      assert Disjoint(init);
      CopyAllOk(fs, init);
      assert !IsDst(init, moves[n].src);
      CopyAllFrame(fs, init, moves[n].src);
    }
  }

  /** With disjoint moves, after a successful loop each destination holds the bytes its
      source had at the start. */
  lemma {:induction false} CopyAllContents(fs: map<string, string>, moves: seq<Move>)
    requires Disjoint(moves) && CopyAll(fs, moves).err.None?
    ensures var w := CopyAll(fs, moves);
      forall k :: 0 <= k < |moves| ==> moves[k].src in fs && moves[k].dst in w.fs && w.fs[moves[k].dst] == fs[moves[k].src]
    decreases |moves|
  {
    if moves != [] {
      var n := |moves| - 1;
      var init := moves[..n];
      assert forall k :: 0 <= k < n ==> init[k] == moves[k];
      assert Disjoint(init);
      CopyAllContents(fs, init);
      assert !IsDst(init, moves[n].src);
      CopyAllFrame(fs, init, moves[n].src);
      var w := CopyAll(fs, moves);
      var w0 := CopyAll(fs, init);
      forall k | 0 <= k < n ensures moves[k].dst in w.fs && w.fs[moves[k].dst] == w0.fs[moves[k].dst] {
        assert moves[k].dst != moves[n].dst;
      }
    }
  }

  /** Every destination is present and holds the same bytes as its source. */
  predicate InstalledFrom(fs: map<string, string>, moves: seq<Move>) {
    forall k :: 0 <= k < |moves| ==> moves[k].src in fs && moves[k].dst in fs && fs[moves[k].dst] == fs[moves[k].src]
  }

  /** With disjoint moves, a successful loop leaves every binary installed as a copy of
      the bundle's file, and the bundle's files themselves untouched. */
  lemma CopyAllInstalled(fs: map<string, string>, moves: seq<Move>)
    requires Disjoint(moves) && CopyAll(fs, moves).err.None?
    ensures InstalledFrom(CopyAll(fs, moves).fs, moves)
  {
    var w := CopyAll(fs, moves);
    CopyAllContents(fs, moves);
    forall k | 0 <= k < |moves| ensures moves[k].src in w.fs && w.fs[moves[k].src] == fs[moves[k].src] {
      assert !IsDst(moves, moves[k].src);
      CopyAllFrame(fs, moves, moves[k].src);
    }
  }

  /** Installing twice is installing once: with disjoint moves, a second run of the
      loop over the files the first one left changes nothing. */
  lemma CopyAllIdempotent(fs: map<string, string>, moves: seq<Move>)
    requires Disjoint(moves) && CopyAll(fs, moves).err.None?
    ensures CopyAll(CopyAll(fs, moves).fs, moves) == CopyAll(fs, moves)
  {
    var w := CopyAll(fs, moves);
    CopyAllInstalled(fs, moves);
    CopyAllFixed(w.fs, moves, |moves|);
    assert moves[..|moves|] == moves;
  }

  /** Copies that only rewrite what a destination already holds leave the map as is. */
  lemma {:induction false} CopyAllFixed(fs: map<string, string>, moves: seq<Move>, k: nat)
    requires k <= |moves|
    requires forall i :: 0 <= i < |moves| ==> moves[i].src in fs && moves[i].dst in fs && fs[moves[i].dst] == fs[moves[i].src]
    ensures CopyAll(fs, moves[..k]) == Written(fs, None)
    decreases k
  {
    if k > 0 {
      assert moves[..k][..k - 1] == moves[..k - 1];
      CopyAllFixed(fs, moves, k - 1);
      var m := moves[k - 1];
      assert fs[m.dst := fs[m.src]] == fs;
    }
  }

  /** When the loop stops, it stops at the first missing source, with every move before
      it made. */
  lemma {:induction false} CopyAllStopsAtMissing(fs: map<string, string>, moves: seq<Move>)
    requires CopyAll(fs, moves).err.Some?
    ensures var w := CopyAll(fs, moves);
      exists k :: 0 <= k < |moves| && CopyAll(fs, moves[..k]) == Written(w.fs, None)
        && moves[k].src !in w.fs && w.err == Some(FileNotFound(moves[k].src))
    decreases |moves|
  {
    var n := |moves| - 1;
    var init := moves[..n];
    if CopyAll(fs, init).err.Some? {
      CopyAllStopsAtMissing(fs, init);
      var k :| 0 <= k < n && CopyAll(fs, init[..k]) == Written(CopyAll(fs, init).fs, None)
        && init[k].src !in CopyAll(fs, init).fs && CopyAll(fs, init).err == Some(FileNotFound(init[k].src));
      assert init[..k] == moves[..k];
    } else {
      assert CopyAll(fs, moves[..n]) == Written(CopyAll(fs, moves).fs, None);
    }
  }

  // ---------------------------------------------------------------------------
  // The moves of a family never overlap
  // ---------------------------------------------------------------------------

  /** Two paths joined under the same directory agree only if their tails agree. */
  lemma JoinCancel(d: string, x: string, y: string, e: string, e': string)
    requires x != "" && y != "" && GoPath.Join(d, x) + e == GoPath.Join(d, y) + e'
    ensures x + e == y + e'
  {
    if d != "" {
      var l := d + "/" + (x + e);
      var r := d + "/" + (y + e');
      assert GoPath.Join(d, x) + e == l;
      assert GoPath.Join(d, y) + e' == r;
      assert l[|d| + 1..] == x + e;
      assert r[|d| + 1..] == y + e';
    }
  }

  lemma JoinNested(d: string, sub: string, n: string)
    requires sub != "" && n != ""
    ensures GoPath.Join(GoPath.Join(d, sub), n) == GoPath.Join(d, sub + "/" + n)
  {
  }

  lemma NoSlash(n: string, e: string)
    requires '/' !in n && (e == "" || e == ".exe")
    ensures '/' !in n + e
  {
    assert '/' !in ".exe";
  }

  /** A plain name keeps its identity under the `.exe` rule. */
  lemma SameSuffixedName(a: string, b: string, ea: string, eb: string)
    requires '.' !in a && '.' !in b
    requires (ea == "" || ea == ".exe") && (eb == "" || eb == ".exe")
    requires a + ea == b + eb
    ensures a == b
  {
    if ea == eb {
      assert a == (a + ea)[..|a|];
      assert b == (b + eb)[..|b|];
    } else {
      HasDot(a);
      HasDot(b);
    }
  }

  lemma HasDot(a: string)
    ensures '.' in a + ".exe" && a + "" == a
  {
    assert (a + ".exe")[|a|] == '.';
  }

  /** Sources under `<dest>/<sub>` and destinations under `<dest>` never collide, and
      plain distinct names give distinct destinations: the copy loop of every family
      meets the requirement of `CopyAllOk`, `CopyAllContents` and `CopyAllIdempotent`. */
  lemma MovesDisjoint(cat: seq<Component>, dest: string, sub: string, tuple: string)
    requires PlainNames(cat) && sub != ""
    ensures Disjoint(Moves(cat, GoPath.Join(dest, sub), dest, tuple))
  {
    var srcDir := GoPath.Join(dest, sub);
    var ms := Moves(cat, srcDir, dest, tuple);
    forall i, j | 0 <= i < |ms| && 0 <= j < |ms| ensures ms[i].dst != ms[j].src {
      MovesAt(cat, srcDir, dest, tuple, i);
      MovesAt(cat, srcDir, dest, tuple, j);
      var ni, nj := cat[i].name, cat[j].name;
      var ei, ej := ExeSuffix(tuple, cat[i]), ExeSuffix(tuple, cat[j]);
      if ms[i].dst == ms[j].src {
        JoinNested(dest, sub, nj);
        JoinCancel(dest, ni, sub + "/" + nj, ei, ej);
        NoSlash(ni, ei);
      }
    }
    forall i, j | 0 <= i < j < |ms| ensures ms[i].dst != ms[j].dst {
      MovesAt(cat, srcDir, dest, tuple, i);
      MovesAt(cat, srcDir, dest, tuple, j);
      var ei, ej := ExeSuffix(tuple, cat[i]), ExeSuffix(tuple, cat[j]);
      if ms[i].dst == ms[j].dst {
        JoinCancel(dest, cat[i].name, cat[j].name, ei, ej);
        SameSuffixedName(cat[i].name, cat[j].name, ei, ej);
      }
    }
  }

  // ---------------------------------------------------------------------------
  // Download and verify, for the families with a detached manifest signature
  // ---------------------------------------------------------------------------

  /** Where the manifest and its signature are stored. */
  function ManifestPath(tmpDir: string, uri: string): string { GoPath.Join(tmpDir, GoPath.Base(uri)) }
  function SignaturePath(tmpDir: string, uri: string): string { GoPath.Join(tmpDir, GoPath.Base(uri) + ".asc") }

  /** `<family>DownloadAndVerify` of decred.go and dcrdex.go (the two are the same code
      over different globals): fetch and check the manifest, locate the tuple's archive,
      take the version from its name, fetch the archive unless it was seen before, and
      finally run the precondition check on the resulting files. `version` is set once
      the archive name yields one, as the family's version global is; `fetched` tells
      whether the archive was downloaded. */
  method DownloadAndVerify(run: Run, env: Env, src: Source, cat: seq<Component>, dirOf: Component -> string,
                           fs0: map<string, string>)
    returns (fs: map<string, string>, version: Option<string>, fetched: bool, r: Outcome<Error>)
    ensures r == DownloadVerdict(run, env, src, cat, dirOf, fs0)
    ensures version == ReadVersion(run, env, src)
    ensures fetched == Fetches(run, env, src)
    ensures r.Pass? ==> ManifestAccepted(run, env, src)
    ensures r.Pass? ==>
      var found := Located(run, env, src);
      && found.Ok?
      && ArchiveVersion(found.value.1).Ok?
      && version == Some(SemVer.String(ArchiveVersion(found.value.1).value))
      && (fetched <==> run.forceDownload || !env.seenBefore(found.value.1))
      && (fetched ==> ArchiveAccepted(run, env, env.downloadURI(src.manifestURI).value, found.value.0, found.value.1))
      && fs == FinalFiles(run, env, src, fs0)
    ensures r.Pass? ==> PreconditionsOf(run.tuple, env, cat, run.destination, dirOf, fs) == Pass
    ensures PgpRejects(run, env, src) ==> r == Fail(SignatureIncorrect(SignatureVerdict(env, src).error)) && version.None?
  {
    version, fetched := None, false;
    var downloadURI;
    fs, downloadURI, r := FetchManifest(run, env, src, fs0);
    if r.Fail? {
      return;
    }
    var manifestFilename := ManifestPath(run.tmpDir, src.manifestURI);
    var found := Manifest.FindOS(run.tuple, fs, manifestFilename);
    if found.Err? {
      return fs, version, fetched, Fail(FindTuple(found.error));
    }
    var (digest, filename) := found.value;
    var ver := SemVer.ExtractSemVer(GoPath.Base(filename));
    if ver.Err? {
      return fs, version, fetched, Fail(ManifestVersion(ver.error));
    }
    version := Some(SemVer.String(ver.value));
    // Don't download the archive if it has been extracted.
    if run.forceDownload || !env.seenBefore(filename) {
      fetched := true;
      fs, r := FetchArchive(run, env, downloadURI, digest, filename, fs);
      if r.Fail? {
        return;
      }
    }
    r := Preconditions(run.tuple, env, cat, run.destination, dirOf, fs);
  }

  /** Whether the manifest half succeeded, the tuple was found and the archive name
      held a version: the point after which the version global is set. */
  predicate VersionKnown(run: Run, env: Env, src: Source) {
    && ManifestAccepted(run, env, src)
    && Located(run, env, src).Ok?
    && ArchiveVersion(Located(run, env, src).value.1).Ok?
  }

  /** The version the run records: the archive name's, once it is read. */
  function ReadVersion(run: Run, env: Env, src: Source): Option<string> {
    if VersionKnown(run, env, src) then Some(SemVer.String(ArchiveVersion(Located(run, env, src).value.1).value))
    else None
  }

  /** Whether the archive is downloaded: only once the version is known, and then when
      forced or when the archive was not seen before. */
  predicate Fetches(run: Run, env: Env, src: Source) {
    VersionKnown(run, env, src) && (run.forceDownload || !env.seenBefore(Located(run, env, src).value.1))
  }

  /** The files once the version is known and a fetched archive was accepted: the
      manifest downloads, and the unpacked archive when it was fetched. */
  function FinalFiles(run: Run, env: Env, src: Source, fs0: map<string, string>): map<string, string>
    requires VersionKnown(run, env, src)
    requires Fetches(run, env, src) ==>
      ArchiveAccepted(run, env, env.downloadURI(src.manifestURI).value, Located(run, env, src).value.0, Located(run, env, src).value.1)
  {
    var filename := Located(run, env, src).value.1;
    if Fetches(run, env, src) then Unpacked(run, env, env.downloadURI(src.manifestURI).value, filename, Downloads(run, env, src, fs0))
    else Downloads(run, env, src, fs0)
  }

  /** The outcome of the whole sequence: the first step that fails names the error, and
      when none fails the precondition check decides. */
  function DownloadVerdict(run: Run, env: Env, src: Source, cat: seq<Component>, dirOf: Component -> string,
                           fs0: map<string, string>): Outcome<Error>
  {
    if !ManifestAccepted(run, env, src) then Fail(ManifestFailure(run, env, src))
    else if Located(run, env, src).Err? then Fail(FindTuple(Located(run, env, src).error))
    else if ArchiveVersion(Located(run, env, src).value.1).Err? then
      Fail(ManifestVersion(ArchiveVersion(Located(run, env, src).value.1).error))
    else
      var (digest, filename) := Located(run, env, src).value;
      var uri := env.downloadURI(src.manifestURI).value;
      if Fetches(run, env, src) && !ArchiveAccepted(run, env, uri, digest, filename) then
        Fail(ArchiveFailure(run, env, uri, digest, filename))
      else PreconditionsOf(run.tuple, env, cat, run.destination, dirOf, FinalFiles(run, env, src, fs0))
  }

  /** The sequence succeeds exactly when every step does: the manifest is accepted, the
      tuple is found, the archive name holds a version, a fetched archive is accepted,
      and the preconditions hold on the resulting files. */
  lemma DownloadVerdictPass(run: Run, env: Env, src: Source, cat: seq<Component>, dirOf: Component -> string,
                            fs0: map<string, string>)
    ensures DownloadVerdict(run, env, src, cat, dirOf, fs0) == Pass <==>
      && VersionKnown(run, env, src)
      && (Fetches(run, env, src) ==>
            ArchiveAccepted(run, env, env.downloadURI(src.manifestURI).value, Located(run, env, src).value.0, Located(run, env, src).value.1))
      && PreconditionsOf(run.tuple, env, cat, run.destination, dirOf, FinalFiles(run, env, src, fs0)) == Pass
  {
  }

  /** The archive entry `findOS` picks from the fetched manifest. */
  function Located(run: Run, env: Env, src: Source): Result<(string, string), Manifest.Error>
    requires env.fetch(src.manifestURI).Ok?
  {
    Manifest.Locate(run.tuple, ManifestPath(run.tmpDir, src.manifestURI), env.fetch(src.manifestURI).value)
  }

  /** The version in an archive's name. */
  function ArchiveVersion(filename: string): Result<SemVer.SemVerInfo, SemVer.Error> {
    SemVer.ExtractSemVer(GoPath.Base(filename))
  }

  /** The manifest was fetched, matched its optional digest, gave a download URI and,
      unless `skipPGP`, came with a signature that verifies. */
  predicate ManifestAccepted(run: Run, env: Env, src: Source) {
    var body := env.fetch(src.manifestURI);
    && body.Ok?
    && (src.manifestDigest != "" ==> env.sha256(body.value) == src.manifestDigest)
    && env.downloadURI(src.manifestURI).Ok?
    && (!run.skipPGP ==> env.fetch(src.manifestURI + ".asc").Ok? && SignatureVerdict(env, src) == Pass)
  }

  /** The signature check on the fetched manifest. */
  function SignatureVerdict(env: Env, src: Source): Outcome<string>
    requires env.fetch(src.manifestURI).Ok? && env.fetch(src.manifestURI + ".asc").Ok?
  {
    env.pgpVerify(env.fetch(src.manifestURI + ".asc").value, env.fetch(src.manifestURI).value)
  }

  /** Everything before the signature check succeeded, and the signature is bad. */
  predicate PgpRejects(run: Run, env: Env, src: Source) {
    var body := env.fetch(src.manifestURI);
    && body.Ok?
    && (src.manifestDigest != "" ==> env.sha256(body.value) == src.manifestDigest)
    && env.downloadURI(src.manifestURI).Ok?
    && !run.skipPGP && env.fetch(src.manifestURI + ".asc").Ok?
    && SignatureVerdict(env, src).Fail?
  }

  /** The manifest half: download, optional digest, download URI, signature. */
  method FetchManifest(run: Run, env: Env, src: Source, fs0: map<string, string>)
    returns (fs: map<string, string>, downloadURI: string, r: Outcome<Error>)
    ensures r.Pass? <==> ManifestAccepted(run, env, src)
    ensures r.Pass? ==> downloadURI == env.downloadURI(src.manifestURI).value && fs == Downloads(run, env, src, fs0)
    ensures ManifestAccepted(run, env, src) ==> fs == Downloads(run, env, src, fs0)
    ensures !ManifestAccepted(run, env, src) ==> r == Fail(ManifestFailure(run, env, src))
    ensures PgpRejects(run, env, src) ==> r == Fail(SignatureIncorrect(SignatureVerdict(env, src).error))
  {
    fs, downloadURI := fs0, "";
    var manifestFilename := ManifestPath(run.tmpDir, src.manifestURI);
    var body := env.fetch(src.manifestURI);
    if body.Err? {
      return fs, downloadURI, Fail(DownloadManifest(body.error));
    }
    fs := fs[manifestFilename := body.value];
    if src.manifestDigest != "" {
      // Optional digest was set so check it.
      if env.sha256(fs[manifestFilename]) != src.manifestDigest {
        return fs, downloadURI, Fail(ManifestDigest(manifestFilename));
      }
    }
    var uri := env.downloadURI(src.manifestURI);
    if uri.Err? {
      return fs, downloadURI, Fail(DownloadURI(uri.error));
    }
    downloadURI := uri.value;
    if !run.skipPGP {
      var signatureFilename := SignaturePath(run.tmpDir, src.manifestURI);
      var sig := env.fetch(src.manifestURI + ".asc");
      if sig.Err? {
        return fs, downloadURI, Fail(DownloadSignature(sig.error));
      }
      fs := fs[signatureFilename := sig.value];
      var ok := env.pgpVerify(sig.value, body.value);
      if ok.Fail? {
        return fs, downloadURI, Fail(SignatureIncorrect(ok.error));
      }
    }
    return fs, downloadURI, Pass;
  }

  /** The error of the first manifest step that fails: the download, the optional
      digest, the download URI, the signature download, the signature check. */
  function ManifestFailure(run: Run, env: Env, src: Source): (e: Error)
    requires !ManifestAccepted(run, env, src)
    ensures env.fetch(src.manifestURI).Err? ==> e == DownloadManifest(env.fetch(src.manifestURI).error)
    ensures PgpRejects(run, env, src) ==> e == SignatureIncorrect(SignatureVerdict(env, src).error)
  {
    var body := env.fetch(src.manifestURI);
    if body.Err? then DownloadManifest(body.error)
    else if src.manifestDigest != "" && env.sha256(body.value) != src.manifestDigest then
      ManifestDigest(ManifestPath(run.tmpDir, src.manifestURI))
    else if env.downloadURI(src.manifestURI).Err? then DownloadURI(env.downloadURI(src.manifestURI).error)
    else if env.fetch(src.manifestURI + ".asc").Err? then DownloadSignature(env.fetch(src.manifestURI + ".asc").error)
    else SignatureIncorrect(SignatureVerdict(env, src).error)
  }

  /** The archive was fetched, its SHA-256 matches the manifest's digest, and it unpacks. */
  predicate ArchiveAccepted(run: Run, env: Env, uri: string, digest: string, filename: string) {
    var archive := env.fetch(uri + filename);
    archive.Ok? && env.sha256(archive.value) == digest && env.extract(archive.value, run.destination).Ok?
  }

  /** The files after the archive is stored in the temporary directory and unpacked
      into the destination. */
  function Unpacked(run: Run, env: Env, uri: string, filename: string, fs: map<string, string>): map<string, string>
    requires env.fetch(uri + filename).Ok? && env.extract(env.fetch(uri + filename).value, run.destination).Ok?
  {
    var archive := env.fetch(uri + filename).value;
    fs[GoPath.Join(run.tmpDir, filename) := archive] + env.extract(archive, run.destination).value
  }

  /** The error of the first archive step that fails: the download, the digest, the unpack. */
  function ArchiveFailure(run: Run, env: Env, uri: string, digest: string, filename: string): (e: Error)
    requires !ArchiveAccepted(run, env, uri, digest, filename)
    ensures env.fetch(uri + filename).Err? ==> e == DownloadBundle(env.fetch(uri + filename).error)
    ensures env.fetch(uri + filename).Ok? && env.sha256(env.fetch(uri + filename).value) != digest ==>
      e == BundleDigest(GoPath.Join(run.tmpDir, filename))
  {
    var archive := env.fetch(uri + filename);
    if archive.Err? then DownloadBundle(archive.error)
    else if env.sha256(archive.value) != digest then BundleDigest(GoPath.Join(run.tmpDir, filename))
    else ExtractBundle(env.extract(archive.value, run.destination).error)
  }

  /** `download<Family>Bundle` and `extract<Family>Bundle`. */
  method FetchArchive(run: Run, env: Env, uri: string, digest: string, filename: string, fs0: map<string, string>)
    returns (fs: map<string, string>, r: Outcome<Error>)
    ensures r.Pass? <==> ArchiveAccepted(run, env, uri, digest, filename)
    ensures r.Pass? ==> fs == Unpacked(run, env, uri, filename, fs0)
    ensures !ArchiveAccepted(run, env, uri, digest, filename) ==> r == Fail(ArchiveFailure(run, env, uri, digest, filename))
  {
    fs := fs0;
    var bundleFilename := GoPath.Join(run.tmpDir, filename);
    var archive := env.fetch(uri + filename);
    if archive.Err? {
      return fs, Fail(DownloadBundle(archive.error));
    }
    fs := fs[bundleFilename := archive.value];
    // Verify the digest.
    if env.sha256(fs[bundleFilename]) != digest {
      return fs, Fail(BundleDigest(bundleFilename));
    }
    var files := env.extract(fs[bundleFilename], run.destination);
    if files.Err? {
      return fs, Fail(ExtractBundle(files.error));
    }
    return fs + files.value, Pass;
  }

  /** The files a successful manifest and signature download leaves behind. */
  function Downloads(run: Run, env: Env, src: Source, fs: map<string, string>): map<string, string>
    requires env.fetch(src.manifestURI).Ok?
    requires !run.skipPGP ==> env.fetch(src.manifestURI + ".asc").Ok?
  {
    var withManifest := fs[ManifestPath(run.tmpDir, src.manifestURI) := env.fetch(src.manifestURI).value];
    if run.skipPGP then withManifest
    else withManifest[SignaturePath(run.tmpDir, src.manifestURI) := env.fetch(src.manifestURI + ".asc").value]
  }
}

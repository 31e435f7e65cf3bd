/** cmd/dcrinstall/settings.go, `parseSettings`: checking the command-line options of the
    ctx-based installer and assembling its `Settings`. */
module Settings {
  import opened Wrappers

  const LatestManifest: string := "manifest-v0.7.0.txt"
  const DefaultURI: string := "https://github.com/decred/decred-binaries/releases/download/v0.7.0"
  const NetMain: string := "mainnet"
  const NetTest: string := "testnet"
  const NetSim: string := "simnet"
  const WalletDB: string := "wallet.db"

  datatype Settings = Settings(
    destination: string, manifest: string, net: string, path: string, tuple: string,
    uri: string, downloadOnly: bool, skipDownload: bool, skipVerify: bool,
    quiet: bool, verbose: bool, version: bool)

  /** The flag values after `flag.Parse`, one per option. */
  datatype Flags = Flags(
    dest: string, manifest: string, net: string, path: string, tuple: string, uri: string,
    downloadOnly: bool, skip: bool, version: bool, quiet: bool, verbose: bool)

  /** The defaults of the options, for a host whose `runtime.GOOS` and `runtime.GOARCH`
      are `goos` and `goarch`. */
  function DefaultFlags(goos: string, goarch: string): Flags {
    Flags("~/decred", LatestManifest, NetMain, "", goos + "-" + goarch, DefaultURI,
          false, false, false, false, true)
  }

  datatype Error =
    | ShowVersion            // -version: the version is printed and the process exits with 0
    | NoTuple                // "must provide OS-Arch tuple"
    | NoPath                 // "must provide download path"
    | SkipWithDownloadOnly   // "downloadonly and skip are mutually exclusive"
    | InvalidNet             // "invalid net, please use mainnet, testnet or simnet"
    | ExpandFailed(e: string) // the error of homedir.Expand

  predicate ValidNet(n: string) { n == NetMain || n == NetTest || n == NetSim }

  /** `parseSettings` on the flag values `f`; `expand` stands for `homedir.Expand`. The
      checks run in source order and the first that fails decides the error. */
  function ParseSettings(f: Flags, expand: string -> Result<string, string>): (r: Result<Settings, Error>)
    ensures r.Ok? <==> (!f.version && f.tuple != "" && !(f.skip && f.path == "")
                        && !(f.skip && f.downloadOnly) && ValidNet(f.net) && expand(f.dest).Ok?)
    ensures r.Ok? ==> r.value.destination == expand(f.dest).value && r.value.net == f.net
    ensures r.Ok? ==> r.value.skipVerify == (f.uri != DefaultURI)
    ensures r.Ok? ==> r.value.verbose == (f.verbose && !f.quiet)
    ensures r.Ok? ==> !r.value.quiet && !r.value.version
    ensures r.Ok? ==> (r.value.manifest == f.manifest && r.value.path == f.path
                       && r.value.tuple == f.tuple && r.value.uri == f.uri
                       && r.value.skipDownload == f.skip && r.value.downloadOnly == f.downloadOnly)
  {
    if f.version then Err(ShowVersion)
    else if f.tuple == "" then Err(NoTuple)
    else if f.skip && f.path == "" then Err(NoPath)
    else if f.skip && f.downloadOnly then Err(SkipWithDownloadOnly)
    else
      var skipVerify := f.uri != DefaultURI;
      if !ValidNet(f.net) then Err(InvalidNet)
      else
        match expand(f.dest)
        case Err(e) => Err(ExpandFailed(e))
        case Ok(destination) =>
          var verbose := if f.quiet then false else f.verbose;
          Ok(Settings(destination, f.manifest, f.net, f.path, f.tuple, f.uri,
                      f.downloadOnly, f.skip, skipVerify, false, verbose, false))
  }

  // ---------------------------------------------------------------------------
  // Properties
  // ---------------------------------------------------------------------------

  /** The order of the checks: an empty tuple is reported before anything else is
      looked at, then a skip without a path, then skip with downloadonly, then a bad
      network, and only then the expansion of the destination. */
  lemma CheckOrder(f: Flags, expand: string -> Result<string, string>)
    requires !f.version
    ensures f.tuple == "" ==> ParseSettings(f, expand) == Err(NoTuple)
    ensures f.tuple != "" && f.skip && f.path == "" ==> ParseSettings(f, expand) == Err(NoPath)
    ensures f.tuple != "" && f.skip && f.path != "" && f.downloadOnly ==>
      ParseSettings(f, expand) == Err(SkipWithDownloadOnly)
    ensures f.tuple != "" && !(f.skip && (f.path == "" || f.downloadOnly)) && !ValidNet(f.net) ==>
      ParseSettings(f, expand) == Err(InvalidNet)
    ensures (f.tuple != "" && !(f.skip && (f.path == "" || f.downloadOnly)) && ValidNet(f.net)
             && expand(f.dest).Err?) ==> ParseSettings(f, expand) == Err(ExpandFailed(expand(f.dest).error))
  {
  }

  /** The defaults are accepted on any host with a non-empty tuple, verbosely, on
      mainnet and with signature checking. */
  lemma DefaultsAccepted(goos: string, goarch: string, expand: string -> Result<string, string>)
    requires expand("~/decred").Ok?
    ensures var r := ParseSettings(DefaultFlags(goos, goarch), expand);
      r.Ok? && r.value.net == NetMain && !r.value.skipVerify && r.value.verbose
      && r.value.manifest == LatestManifest && r.value.tuple == goos + "-" + goarch
  {
    assert (goos + "-" + goarch) != "";
  }

  /** `-quiet` silences the run whatever `-verbose` says. */
  lemma QuietWins(f: Flags, expand: string -> Result<string, string>)
    requires ParseSettings(f, expand).Ok?
    ensures ParseSettings(f.(quiet := true), expand).Ok?
    ensures !ParseSettings(f.(quiet := true), expand).value.verbose
    ensures ParseSettings(f.(quiet := false), expand).value.verbose == f.verbose
  {
  }

  /** `-skip` is only accepted together with a path and without `-downloadonly`. */
  lemma SkipNeedsPath(f: Flags, expand: string -> Result<string, string>)
    requires f.skip
    ensures ParseSettings(f, expand).Ok? ==> f.path != "" && !f.downloadOnly
  {
  }

  /** Only the default URI keeps signature checking on. */
  lemma CustomURISkipsVerify(f: Flags, uri: string, expand: string -> Result<string, string>)
    requires ParseSettings(f, expand).Ok?
    ensures ParseSettings(f.(uri := uri), expand).Ok?
    ensures ParseSettings(f.(uri := uri), expand).value.skipVerify <==> uri != DefaultURI
  {
  }
}

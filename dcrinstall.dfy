/** cmd/dcrinstall/dcrinstall.go: the ctx-based installer. `main` refuses to run while
    dcrwallet or dcrd is running, downloads and verifies a release, unpacks it, checks
    that its binaries start, writes first-time configuration files and copies the
    binaries into place. */
module Dcrinstall {
  import opened Wrappers
  import opened GoStrings
  import GoPath
  import Settings
  import Manifest
  import SemVer
  import Util
  import Config
  import Bundle

  /** An entry of the `binaries` table. */
  datatype Binary = Binary(
    name: string,           // binary file name
    config: string,         // config file name, "" when there is none
    example: string,        // sample config inside the extracted bundle
    exampleGenerate: bool,  // the sample is written from the compiled-in text first
    supportsVersion: bool)  // answers `--version`

  const Binaries: seq<Binary> := [
    Binary("dcrctl", "dcrctl.conf", "sample-dcrctl.conf", false, true),
    Binary("dcrd", "dcrd.conf", "sample-dcrd.conf", true, true),
    Binary("dcrwallet", "dcrwallet.conf", "sample-dcrwallet.conf", false, true),
    Binary("promptsecret", "", "", false, false)]

  /** What the installer asks of the world outside the file map. */
  datatype World = World(
    goos: string,                                            // runtime.GOOS
    isRunning: string -> Result<bool, string>,               // ctx.isRunning(name), one probe per name
    download: Result<(string, map<string, string>), string>, // ctx.download: its directory and the files it stored
    pgpVerify: (string, string) -> Outcome<string>,          // pgpVerify(signature file, manifest file)
    sha256: string -> string,                                // hex SHA-256 of a file's bytes
    unpack: (Util.Archive, string) -> Result<map<string, string>, string>, // ctx.unzip / ctx.gunzip: files written
    start: string -> Outcome<string>,                        // exec.Command(path, "-h").Start()
    appDataDir: (string, bool) -> string,                    // dcrutil.AppDataDir
    user: Result<string, string>,                            // homedir.User
    password: Result<string, string>,                        // 24 random bytes in base64
    dcrdSample: string,                                      // sampleconfig.FileContents
    createWallet: string -> Outcome<string>)                 // ctx.createWallet for a net

  datatype Error =
    | ProbeFailed(e: string)               // the error of ctx.isRunning
    | StillRunning(name: string)           // "<name> is still running"
    | DownloadFailed(e: string)
    | FindOSFailed(m: Manifest.Error)
    | SignatureIncorrect(e: string)        // "manifest PGP signature incorrect: <e>"
    | ReadFailed(path: string)             // sha256File could not open the package
    | CorruptDigest(filename: string)      // "corrupt digest <filename>"
    | ExtractFailed(e: string)
    | NoVersion(v: SemVer.Error)
    | StartFailed(path: string, e: string) // a binary of the bundle does not start
    | ConfigsExist(names: seq<string>)     // "<names> already exists"
    | NoUser(e: string)
    | NoPassword(e: string)
    | OpenFailed(path: string)             // the sample config cannot be opened
    | NetNotSet(net: string)               // "could not set net to <net>"
    | WalletFailed(e: string)
    | CopyFailed(copy: Bundle.Error)

  /** The file map after a step, and how the step ended. */
  datatype State = State(fs: map<string, string>, r: Outcome<Error>)

  // ---------------------------------------------------------------------------
  // running
  // ---------------------------------------------------------------------------

  /** `ctx.running`: with DownloadOnly nothing is probed and nothing counts as running. */
  function Running(s: Settings.Settings, w: World, name: string): (r: Result<bool, string>)
    ensures s.downloadOnly ==> r == Ok(false)
    ensures !s.downloadOnly ==> r == w.isRunning(name)
  {
    if s.downloadOnly then Ok(false) else w.isRunning(name)
  }

  /** The first two steps of `main`: dcrwallet, then dcrd, must not be running. */
  function Preflight(s: Settings.Settings, w: World): Outcome<Error> {
    match Running(s, w, "dcrwallet")
    case Err(e) => Fail(ProbeFailed(e))
    case Ok(up) =>
      if up then Fail(StillRunning("dcrwallet"))
      else match Running(s, w, "dcrd")
        case Err(e) => Fail(ProbeFailed(e))
        case Ok(up') => if up' then Fail(StillRunning("dcrd")) else Pass
  }

  /** `main` goes on exactly when DownloadOnly is set or neither process runs; a
      running dcrwallet is reported whatever dcrd does. */
  lemma PreflightLaw(s: Settings.Settings, w: World)
    ensures Preflight(s, w) == Pass <==>
      s.downloadOnly || (w.isRunning("dcrwallet") == Ok(false) && w.isRunning("dcrd") == Ok(false))
    ensures !s.downloadOnly && w.isRunning("dcrwallet") == Ok(true) ==>
      Preflight(s, w) == Fail(StillRunning("dcrwallet"))
    ensures !s.downloadOnly && w.isRunning("dcrwallet") == Ok(false) && w.isRunning("dcrd") == Ok(true) ==>
      Preflight(s, w) == Fail(StillRunning("dcrd"))
  {
  }

  // ---------------------------------------------------------------------------
  // verify
  // ---------------------------------------------------------------------------

  /** `<Path>/<Manifest>`. */
  function ManifestFile(s: Settings.Settings): string { GoPath.Join(s.path, s.manifest) }

  /** `findOS(Tuple, manifest)`, with the line counter advanced. */
  function Located(s: Settings.Settings, fs: map<string, string>): Result<(string, string), Manifest.Error> {
    var m := ManifestFile(s);
    if m !in fs then Err(Manifest.OpenFailed(m)) else Manifest.Locate(s.tuple, m, fs[m])
  }

  /** The signature step passes: it is skipped, or `pgpVerify` accepts the manifest. */
  predicate SignatureAccepted(s: Settings.Settings, w: World) {
    s.skipVerify || w.pgpVerify(ManifestFile(s) + ".asc", ManifestFile(s)).Pass?
  }

  /** The package named by the manifest is there and has the manifest's digest. */
  predicate DigestMatches(s: Settings.Settings, w: World, fs: map<string, string>, entry: (string, string)) {
    var pkg := GoPath.Join(s.path, entry.1);
    pkg in fs && w.sha256(fs[pkg]) == entry.0
  }

  /** `ctx.verify`. */
  function VerifyOf(s: Settings.Settings, w: World, fs: map<string, string>): (r: Outcome<Error>)
    ensures r == Pass <==> Located(s, fs).Ok? && SignatureAccepted(s, w) && DigestMatches(s, w, fs, Located(s, fs).value)
    ensures Located(s, fs).Err? ==> r == Fail(FindOSFailed(Located(s, fs).error))
    ensures Located(s, fs).Ok? && SignatureAccepted(s, w) && GoPath.Join(s.path, Located(s, fs).value.1) in fs ==>
      (r == Pass || r == Fail(CorruptDigest(Located(s, fs).value.1)))
  {
    match Located(s, fs)
    case Err(e) => Fail(FindOSFailed(e))
    case Ok(entry) =>
      var m := ManifestFile(s);
      if !s.skipVerify && w.pgpVerify(m + ".asc", m).Fail? then
        Fail(SignatureIncorrect(w.pgpVerify(m + ".asc", m).error))
      else
        var pkg := GoPath.Join(s.path, entry.1);
        if pkg !in fs then Fail(ReadFailed(pkg))
        else if w.sha256(fs[pkg]) != entry.0 then Fail(CorruptDigest(entry.1))
        else Pass
  }

  /** `ctx.verify`, step by step. */
  method Verify(s: Settings.Settings, w: World, fs: map<string, string>) returns (r: Outcome<Error>)
    ensures r == VerifyOf(s, w, fs)
  {
    var manifest := GoPath.Join(s.path, s.manifest);
    var found := Manifest.FindOS(s.tuple, fs, manifest);
    if found.Err? {
      return Fail(FindOSFailed(found.error));
    }
    var (digest, filename) := found.value;
    if !s.skipVerify {
      var v := w.pgpVerify(manifest + ".asc", manifest);
      if v.Fail? {
        return Fail(SignatureIncorrect(v.error));
      }
    }
    var pkg := GoPath.Join(s.path, filename);
    if pkg !in fs {
      return Fail(ReadFailed(pkg));
    }
    if w.sha256(fs[pkg]) != digest {
      return Fail(CorruptDigest(filename));
    }
    return Pass;
  }

  /** SkipVerify drops the signature step and nothing else: the digest is compared
      either way, and a skipped check never reports a bad signature. */
  lemma SkipVerifySkipsOnlySignature(s: Settings.Settings, w: World, fs: map<string, string>)
    ensures var t := s.(skipVerify := true);
      VerifyOf(t, w, fs) == Pass <==> Located(s, fs).Ok? && DigestMatches(s, w, fs, Located(s, fs).value)
    ensures VerifyOf(s, w, fs) == Pass ==> VerifyOf(s.(skipVerify := true), w, fs) == Pass
    ensures !VerifyOf(s.(skipVerify := true), w, fs).Fail? || !VerifyOf(s.(skipVerify := true), w, fs).error.SignatureIncorrect?
  {
  }

  // ---------------------------------------------------------------------------
  // ctx.createConfigNormal
  // ---------------------------------------------------------------------------

  /** The three prefixes `ctx.createConfigNormal` activates. */
  datatype KeyTriple = KeyTriple(usr: string, pwd: string, network: string)

  /** Prefixes long enough to drop their `; ` marker. */
  type Keys = k: KeyTriple | |k.usr| >= 2 && |k.pwd| >= 2 && |k.network| >= 2
    witness KeyTriple("; ", "; ", "; ")

  /** `; rpcuser=` and `; rpcpass=` (`; username=` and `; password=` for dcrwallet),
      and `; <net in lower case>=`. */
  function KeysOf(name: string, net: string): Keys {
    var network := NetKey(net);
    if name == "dcrwallet" then KeyTriple("; username=", "; password=", network)
    else KeyTriple("; rpcuser=", "; rpcpass=", network)
  }

  /** `; <net in lower case>=`. */
  function NetKey(net: string): (r: string)
    ensures |r| >= 3
  {
    "; " + ToLower(net) + "="
  }

  /** A line after the two credential tests. */
  function Credentialed(line: string, k: Keys, user: string, password: string): string {
    var l := if k.usr <= line then k.usr[2..] + user + "\n" else line;
    if k.pwd <= l then k.pwd[2..] + password + "\n" else l
  }

  /** The network test succeeds on the line. */
  predicate SetsNet(line: string, k: Keys, user: string, password: string) {
    k.network <= Credentialed(line, k, user, password)
  }

  /** A line after all three tests. */
  function Activated(line: string, k: Keys, user: string, password: string): string {
    if SetsNet(line, k, user, password) then k.network[2..] + "1\n" else Credentialed(line, k, user, password)
  }

  /** The accumulated output for the lines `ls`. */
  function ActivateLines(ls: seq<string>, k: Keys, user: string, password: string): string
    decreases |ls|
  {
    if ls == [] then "" else Activated(ls[0], k, user, password) + ActivateLines(ls[1..], k, user, password)
  }

  /** The `seen` flag after the lines `ls`. */
  predicate NetSeen(ls: seq<string>, k: Keys, user: string, password: string) {
    exists i :: 0 <= i < |ls| && SetsNet(ls[i], k, user, password)
  }

  /** What `ctx.createConfigNormal` returns for binary `name` and net `net`, with the
      user and password it holds, when the sample reads `sample`. */
  function LegacyConfig(name: string, net: string, user: string, password: string, sample: string): (r: Result<string, Error>)
    ensures r.Err? ==> r == Err(NetNotSet(net)) && net != Settings.NetMain
  {
    var k := KeysOf(name, net);
    var ls := Lines(sample);
    if net != Settings.NetMain && !NetSeen(ls, k, user, password) then Err(NetNotSet(net))
    else Ok(ActivateLines(ls, k, user, password))
  }

  /** The prefixes `ctx.createConfigNormal` sets up before its loop. */
  method Prefixes(name: string, net: string) returns (usr: string, pwd: string, network: string)
    ensures KeyTriple(usr, pwd, network) == KeysOf(name, net)
  {
    usr := "; rpcuser=";
    pwd := "; rpcpass=";
    network := "; " + ToLower(net) + "=";
    if name == "dcrwallet" {
      usr := "; username=";
      pwd := "; password=";
    }
  }

  /** `ctx.createConfigNormal`: the line loop with its `seen` flag. */
  method CreateConfigNormal(name: string, net: string, user: string, password: string, sample: string)
    returns (r: Result<string, Error>)
    ensures r == LegacyConfig(name, net, user, password, sample)
  {
    var seen := false;
    var rv := "";
    var usr, pwd, network := Prefixes(name, net);
    ghost var k: Keys := KeyTriple(usr, pwd, network);
    var rest := sample;
    while true
      invariant ActivateLines(Lines(sample), k, user, password) == rv + ActivateLines(Lines(rest), k, user, password)
      invariant NetSeen(Lines(sample), k, user, password) <==> seen || NetSeen(Lines(rest), k, user, password)
      decreases |rest|
    {
      var e := LineEnd(rest);
      if e == 0 {
        assert rv + ActivateLines(Lines(rest), k, user, password) == rv;
        break;
      }
      var line := rest[..e];
      ghost var l0 := line;
      LineStep(rv, rest, k, user, password);
      if usr <= line {
        line := usr[2..] + user + "\n";
      }
      if pwd <= line {
        line := pwd[2..] + password + "\n";
      }
      assert line == Credentialed(l0, k, user, password);
      if network <= line {
        line := network[2..] + "1\n";
        seen := true;
      }
      rv := rv + line;
      rest := rest[e..];
    }
    if net != Settings.NetMain && !seen {
      return Err(NetNotSet(net));
    }
    return Ok(rv);
  }

  /** One turn of the line loop: the first line's output and flag, then the rest. */
  lemma LineStep(rv: string, rest: string, k: Keys, user: string, password: string)
    requires LineEnd(rest) > 0
    ensures var e := LineEnd(rest); var l := rest[..e]; var t := Lines(rest[e..]);
      && rv + ActivateLines(Lines(rest), k, user, password)
         == (rv + Activated(l, k, user, password)) + ActivateLines(t, k, user, password)
      && (NetSeen(Lines(rest), k, user, password) <==> SetsNet(l, k, user, password) || NetSeen(t, k, user, password))
  {
    var e := LineEnd(rest);
    var t := Lines(rest[e..]);
    assert Lines(rest) == [rest[..e]] + t;
    NetSeenCons(rest[..e], t, k, user, password);
    Regroup(rv, Activated(rest[..e], k, user, password), ActivateLines(t, k, user, password));
  }

  lemma NetSeenCons(l: string, ls: seq<string>, k: Keys, user: string, password: string)
    ensures NetSeen([l] + ls, k, user, password) <==> SetsNet(l, k, user, password) || NetSeen(ls, k, user, password)
  {
    var t := [l] + ls;
    assert t[0] == l;
    if NetSeen(ls, k, user, password) {
      var i :| 0 <= i < |ls| && SetsNet(ls[i], k, user, password);
      assert t[i + 1] == ls[i];
    }
    if NetSeen(t, k, user, password) {
      var i :| 0 <= i < |t| && SetsNet(t[i], k, user, password);
      if i > 0 {
        assert ls[i - 1] == t[i];
        assert SetsNet(ls[i - 1], k, user, password);
      }
    }
  }

  /** Keys whose `; ` marker is followed by a character that is no comment marker, the
      net's key differing from both credential keys at that character. */
  predicate Apart(k: Keys) {
    && |k.usr| > 2 && |k.pwd| > 2 && |k.network| > 2
    && k.usr[..2] == "; " && k.pwd[..2] == "; " && k.network[..2] == "; "
    && k.usr[2] != k.network[2] && k.pwd[2] != k.network[2]
    && |k.usr| <= |k.pwd| && k.usr != k.pwd[..|k.usr|]
    && k.usr[2] !in Config.CommentMarkers && k.pwd[2] !in Config.CommentMarkers
    && k.network[2] !in Config.CommentMarkers
  }

  /** The keys of every binary, for a known net, are apart. */
  lemma KeysOfApart(name: string, net: string)
    requires Settings.ValidNet(net)
    ensures Apart(KeysOf(name, net))
  {
    var l := ToLower(net);
    assert l[0] == LowerChar(net[0]);
    var n := NetKey(net);
    assert n[2] == l[0] && n[..2] == "; ";
    var k := KeysOf(name, net);
    if name == "dcrwallet" {
      assert k.pwd[..|k.usr|][2] == k.pwd[2] != k.usr[2];
    } else {
      assert k.pwd[..|k.usr|][5] == k.pwd[5] != k.usr[5];
    }
  }

  /** A line sets the net exactly when it starts with the net's key: a line the
      credential tests rewrite starts with a credential key instead. */
  lemma SetsNetIff(line: string, k: Keys, user: string, password: string)
    requires Apart(k)
    ensures SetsNet(line, k, user, password) <==> k.network <= line
  {
    var l1 := if k.usr <= line then k.usr[2..] + user + "\n" else line;
    assert k.network[0] == ';' && k.pwd[0] == ';';
    if k.usr <= line {
      assert l1[0] == k.usr[2];
      assert line[2] == k.usr[2];
    } else if k.pwd <= line {
      assert line[2] == k.pwd[2];
      assert (k.pwd[2..] + password + "\n")[0] == k.pwd[2];
    }
  }

  /** `seen` ends up set exactly when a line starts with the net's key. */
  lemma NetSeenIff(ls: seq<string>, k: Keys, user: string, password: string)
    requires Apart(k)
    ensures NetSeen(ls, k, user, password) <==> exists i :: 0 <= i < |ls| && k.network <= ls[i]
  {
    forall i | 0 <= i < |ls|
      ensures SetsNet(ls[i], k, user, password) <==> k.network <= ls[i]
    {
      SetsNetIff(ls[i], k, user, password);
    }
  }

  /** For a known net the call fails exactly when the net is not mainnet and no line of
      the sample starts with `; <net>=`. */
  lemma NetLineRequired(name: string, net: string, user: string, password: string, sample: string)
    requires Settings.ValidNet(net)
    ensures LegacyConfig(name, net, user, password, sample).Err? <==>
      net != Settings.NetMain &&
      forall i :: 0 <= i < |Lines(sample)| ==> !(NetKey(net) <= Lines(sample)[i])
  {
    var k := KeysOf(name, net);
    var ls := Lines(sample);
    KeysOfApart(name, net);
    NetSeenIff(ls, k, user, password);
    NetKeyOf(name, net);
    LegacyConfigFails(name, net, user, password, sample);
    var key := NetKey(net);
    assert (exists i :: 0 <= i < |ls| && k.network <= ls[i]) <==> !(forall i :: 0 <= i < |ls| ==> !(key <= ls[i]));
  }

  lemma LegacyConfigFails(name: string, net: string, user: string, password: string, sample: string)
    ensures LegacyConfig(name, net, user, password, sample).Err? <==>
      net != Settings.NetMain && !NetSeen(Lines(sample), KeysOf(name, net), user, password)
  {
  }

  lemma NetKeyOf(name: string, net: string)
    ensures KeysOf(name, net).network == NetKey(net)
  {
  }

  /** A credential line carries the user. */
  lemma UserActivated(k: Keys, user: string, password: string, rest: string)
    requires Apart(k)
    ensures Activated(k.usr + rest, k, user, password) == k.usr[2..] + user + "\n"
  {
    SetsNetIff(k.usr + rest, k, user, password);
    assert (k.usr + rest)[2] == k.usr[2];
    assert (k.usr[2..] + user + "\n")[0] == k.usr[2];
    assert k.pwd[0] == ';';
  }

  /** A password line carries the password. */
  lemma PasswordActivated(k: Keys, user: string, password: string, rest: string)
    requires Apart(k)
    ensures Activated(k.pwd + rest, k, user, password) == k.pwd[2..] + password + "\n"
  {
    SetsNetIff(k.pwd + rest, k, user, password);
    assert (k.pwd + rest)[2] == k.pwd[2];
    assert (k.pwd + rest)[..|k.usr|] == k.pwd[..|k.usr|];
  }

  /** The net's line is set to 1. */
  lemma NetActivated(k: Keys, user: string, password: string, rest: string)
    requires Apart(k)
    ensures Activated(k.network + rest, k, user, password) == k.network[2..] + "1\n"
  {
    SetsNetIff(k.network + rest, k, user, password);
  }

  /** The overrides of the newer `createConfigNormal` that say the same. */
  function LegacyOverrides(k: Keys, user: string, password: string): seq<Config.Override> {
    [Config.Override(k.usr, user), Config.Override(k.pwd, password), Config.Override(k.network, "1")]
  }

  /** One line: the three tests are the newer rewriting with three overrides. */
  lemma ActivatedIsOverrides(line: string, k: Keys, user: string, password: string)
    requires Apart(k)
    ensures Activated(line, k, user, password) == Config.ApplyOverrides(line, LegacyOverrides(k, user, password))
  {
    ApplyThree(line, Config.Override(k.usr, user), Config.Override(k.pwd, password), Config.Override(k.network, "1"));
    ReplacementOfKey(k.usr, user);
    ReplacementOfKey(k.pwd, password);
    ReplacementOfKey(k.network, "1");
  }

  lemma ApplyThree(line: string, a: Config.Override, b: Config.Override, c: Config.Override)
    ensures Config.ApplyOverrides(line, [a, b, c]) == Config.Step(Config.Step(Config.Step(line, a), b), c)
  {
    var ovs := [a, b, c];
    assert ovs[..2] == [a, b] && [a, b][..1] == [a] && [a][..0] == [];
    assert Config.ApplyOverrides(line, [a]) == Config.Step(line, a);
    assert Config.ApplyOverrides(line, [a, b]) == Config.Step(Config.ApplyOverrides(line, [a]), b);
    assert Config.ApplyOverrides(line, ovs) == Config.Step(Config.ApplyOverrides(line, [a, b]), c);
  }

  /** A key `; x` is replaced by `x`, the content and a newline. */
  lemma ReplacementOfKey(key: string, content: string)
    requires |key| > 2 && key[..2] == "; " && key[2] !in Config.CommentMarkers
    ensures Config.Replacement(Config.Override(key, content)) == key[2..] + content + "\n"
  {
    Config.TrimCommented(key[2..]);
    assert key == "; " + key[2..];
  }

  /** The older and the newer rewriting agree over a whole sample. */
  lemma {:induction false} ActivateLinesIsRender(ls: seq<string>, k: Keys, user: string, password: string)
    requires Apart(k)
    ensures ActivateLines(ls, k, user, password) == Config.RenderLines(ls, LegacyOverrides(k, user, password))
    decreases |ls|
  {
    if ls != [] {
      ActivateLinesIsRender(ls[1..], k, user, password);
      ActivatedIsOverrides(ls[0], k, user, password);
      Config.RenderLinesCons(ls[0], ls[1..], LegacyOverrides(k, user, password));
      assert [ls[0]] + ls[1..] == ls;
    }
  }

  /** When it succeeds, the older `ctx.createConfigNormal` writes what the newer
      `createConfigNormal` writes with the overrides user, password and `<net>=1`. */
  lemma LegacyMatchesNewer(name: string, net: string, user: string, password: string, sample: string)
    requires Settings.ValidNet(net)
    ensures LegacyConfig(name, net, user, password, sample).Ok? ==>
      LegacyConfig(name, net, user, password, sample).value ==
      Config.Render(sample, LegacyOverrides(KeysOf(name, net), user, password))
  {
    KeysOfApart(name, net);
    ActivateLinesIsRender(Lines(sample), KeysOf(name, net), user, password);
  }

  // ---------------------------------------------------------------------------
  // exists and walletDBExists
  // ---------------------------------------------------------------------------

  /** `<AppDataDir(name)>/<Config>`; for a binary without a config this is the data
      directory itself. */
  function ConfPath(w: World, b: Binary): string {
    GoPath.Join(w.appDataDir(b.name, false), b.config)
  }

  /** The `found` list of `exists`: the base names of the config paths present, in
      table order. */
  function ExistingConfigs(bs: seq<Binary>, w: World, fs: map<string, string>): seq<string>
    decreases |bs|
  {
    if bs == [] then []
    else
      var conf := ConfPath(w, bs[0]);
      (if conf in fs then [GoPath.Base(conf)] else []) + ExistingConfigs(bs[1..], w, fs)
  }

  /** `exists`: the names found together with the "already exists" error, or nothing
      at all when no config is there. */
  method Exists(binaries: seq<Binary>, w: World, fs: map<string, string>) returns (found: seq<string>, err: Option<Error>)
    ensures err.Some? <==> ExistingConfigs(binaries, w, fs) != []
    ensures err.Some? ==> found == ExistingConfigs(binaries, w, fs) && err.value == ConfigsExist(found)
    ensures err.None? ==> found == []
  {
    var x := 0;
    found := [];
    for i := 0 to |binaries|
      invariant ExistingConfigs(binaries, w, fs) == found + ExistingConfigs(binaries[i..], w, fs)
      invariant x == |found|
    {
      var v := binaries[i];
      ExistingStep(binaries, i, w, fs, found);
      var conf := GoPath.Join(w.appDataDir(v.name, false), v.config);
      if conf !in fs {
        continue;
      }
      found := found + [GoPath.Base(conf)];
      x := x + 1;
    }
    assert binaries[|binaries|..] == [];
    assert found + [] == found;
    if x != 0 {
      return found, Some(ConfigsExist(found));
    }
    return [], None;
  }

  /** One turn of the `exists` loop. */
  lemma ExistingStep(bs: seq<Binary>, i: nat, w: World, fs: map<string, string>, found: seq<string>)
    requires i < |bs|
    ensures var conf := ConfPath(w, bs[i]);
      && (conf in fs ==> found + ExistingConfigs(bs[i..], w, fs) == (found + [GoPath.Base(conf)]) + ExistingConfigs(bs[i + 1..], w, fs))
      && (conf !in fs ==> found + ExistingConfigs(bs[i..], w, fs) == found + ExistingConfigs(bs[i + 1..], w, fs))
  {
    assert bs[i..][0] == bs[i] && bs[i..][1..] == bs[i + 1..];
    var conf := ConfPath(w, bs[i]);
    if conf !in fs {
      assert ExistingConfigs(bs[i..], w, fs) == ExistingConfigs(bs[i + 1..], w, fs);
    }
  }

  /** No name is found exactly when no config path is present. */
  lemma {:induction false} ExistingConfigsNone(bs: seq<Binary>, w: World, fs: map<string, string>)
    ensures ExistingConfigs(bs, w, fs) == [] <==> forall k :: 0 <= k < |bs| ==> ConfPath(w, bs[k]) !in fs
    decreases |bs|
  {
    if bs != [] {
      ExistingConfigsNone(bs[1..], w, fs);
      assert forall k :: 1 <= k < |bs| ==> bs[1..][k - 1] == bs[k];
    }
  }

  /** promptsecret has no config, so `exists` probes its data directory: if that
      directory is there, the run counts as an upgrade. */
  lemma PromptsecretProbesDataDir(w: World, fs: map<string, string>)
    ensures ConfPath(w, Binaries[3]) == w.appDataDir("promptsecret", false)
    ensures w.appDataDir("promptsecret", false) in fs ==> ExistingConfigs(Binaries, w, fs) != []
  {
    ExistingConfigsNone(Binaries, w, fs);
  }

  /** `<AppDataDir("dcrwallet")>/<net>/wallet.db`. */
  function WalletDBPath(w: World, net: string): string {
    GoPath.Join(GoPath.Join(w.appDataDir("dcrwallet", false), net), Settings.WalletDB)
  }

  /** `walletDBExists`: a wallet database of any of the three nets is present. */
  predicate WalletDBExists(w: World, fs: map<string, string>) {
    WalletDBPath(w, Settings.NetMain) in fs || WalletDBPath(w, Settings.NetTest) in fs
      || WalletDBPath(w, Settings.NetSim) in fs
  }

  lemma WalletDBExistsIff(w: World, fs: map<string, string>)
    ensures WalletDBExists(w, fs) <==> exists net :: Settings.ValidNet(net) && WalletDBPath(w, net) in fs
  {
    if WalletDBExists(w, fs) {
      if WalletDBPath(w, Settings.NetMain) in fs {
        assert Settings.ValidNet(Settings.NetMain);
      } else if WalletDBPath(w, Settings.NetTest) in fs {
        assert Settings.ValidNet(Settings.NetTest);
      } else {
        assert Settings.ValidNet(Settings.NetSim);
      }
    }
  }

  // ---------------------------------------------------------------------------
  // extract and validate
  // ---------------------------------------------------------------------------

  /** `<Destination>/decred-<Tuple>-<version>`, where the bundle unpacks. */
  function BundleDir(s: Settings.Settings, version: string): string {
    GoPath.Join(s.destination, "decred-" + s.tuple + "-" + version)
  }

  /** The file map after `ctx.extract`, and the version it reports. */
  datatype Unpacked = Unpacked(fs: map<string, string>, version: Result<string, Error>)

  /** `ctx.extract`: the package named by the manifest is unpacked with the extractor
      its extension picks, and its version is read off its file name. */
  function ExtractOf(s: Settings.Settings, w: World, fs: map<string, string>): Unpacked {
    match Located(s, fs)
    case Err(e) => Unpacked(fs, Err(FindOSFailed(e)))
    case Ok(entry) =>
      match w.unpack(Util.ArchiveOf(entry.1), entry.1)
      case Err(e) => Unpacked(fs, Err(ExtractFailed(e)))
      case Ok(files) =>
        match SemVer.ExtractSemVer(entry.1)
        case Err(e) => Unpacked(fs + files, Err(NoVersion(e)))
        case Ok(info) => Unpacked(fs + files, Ok(Util.VersionString(info)))
  }

  /** The path `validate` starts: `<bundle>/<name>`, with no `.exe`. */
  function UnpackedBinary(s: Settings.Settings, version: string, b: Binary): string {
    GoPath.Join(BundleDir(s, version), b.name)
  }

  /** `ctx.validate` over `bs`: the first binary that does not start stops it. */
  function ValidateOf(bs: seq<Binary>, s: Settings.Settings, w: World, version: string): Outcome<Error>
    decreases |bs|
  {
    if bs == [] then Pass
    else
      var p := UnpackedBinary(s, version, bs[0]);
      if w.start(p).Fail? then Fail(StartFailed(p, w.start(p).error)) else ValidateOf(bs[1..], s, w, version)
  }

  method Validate(binaries: seq<Binary>, s: Settings.Settings, w: World, version: string) returns (r: Outcome<Error>)
    ensures r == ValidateOf(binaries, s, w, version)
  {
    for i := 0 to |binaries|
      invariant ValidateOf(binaries, s, w, version) == ValidateOf(binaries[i..], s, w, version)
    {
      var v := binaries[i];
      assert binaries[i..][0] == v && binaries[i..][1..] == binaries[i + 1..];
      var filename := GoPath.Join(GoPath.Join(s.destination, "decred-" + s.tuple + "-" + version), v.name);
      var err := w.start(filename);
      if err.Fail? {
        return Fail(StartFailed(filename, err.error));
      }
    }
    assert binaries[|binaries|..] == [];
    return Pass;
  }

  /** Every binary before the `k`-th starts. */
  predicate FirstFailure(bs: seq<Binary>, s: Settings.Settings, w: World, version: string, k: nat) {
    k < |bs| && forall j :: 0 <= j < k ==> w.start(UnpackedBinary(s, version, bs[j])).Pass?
  }

  /** `validate` passes exactly when every binary starts, and otherwise names the first
      one that does not. */
  lemma {:induction false} ValidateSpec(bs: seq<Binary>, s: Settings.Settings, w: World, version: string)
    ensures ValidateOf(bs, s, w, version) == Pass <==>
      forall k :: 0 <= k < |bs| ==> w.start(UnpackedBinary(s, version, bs[k])).Pass?
    ensures ValidateOf(bs, s, w, version).Fail? ==>
      exists k :: 0 <= k < |bs| && FirstFailure(bs, s, w, version, k) && w.start(UnpackedBinary(s, version, bs[k])).Fail? &&
        ValidateOf(bs, s, w, version) == Fail(StartFailed(UnpackedBinary(s, version, bs[k]), w.start(UnpackedBinary(s, version, bs[k])).error))
    decreases |bs|
  {
    if bs != [] {
      ValidateSpec(bs[1..], s, w, version);
      assert forall k :: 1 <= k < |bs| ==> bs[1..][k - 1] == bs[k];
      if ValidateOf(bs, s, w, version).Fail? && w.start(UnpackedBinary(s, version, bs[0])).Pass? {
        var k :| 0 <= k < |bs[1..]| && FirstFailure(bs[1..], s, w, version, k) && w.start(UnpackedBinary(s, version, bs[1..][k])).Fail? &&
          ValidateOf(bs[1..], s, w, version) ==
            Fail(StartFailed(UnpackedBinary(s, version, bs[1..][k]), w.start(UnpackedBinary(s, version, bs[1..][k])).error));
        assert FirstFailure(bs, s, w, version, k + 1) by {
          forall j | 1 <= j < k + 1 ensures w.start(UnpackedBinary(s, version, bs[j])).Pass? {
            assert bs[1..][j - 1] == bs[j];
          }
        }
      } else if ValidateOf(bs, s, w, version).Fail? {
        assert FirstFailure(bs, s, w, version, 0);
      }
    }
  }

  // ---------------------------------------------------------------------------
  // First install: configs and wallet
  // ---------------------------------------------------------------------------

  /** `<bundle>/<Example>`. */
  function SamplePath(s: Settings.Settings, version: string, b: Binary): string {
    GoPath.Join(BundleDir(s, version), b.example)
  }

  /** One turn of the config loop of `main`: for a binary with a config, `createConfig`
      (dcrd's sample is written from the compiled-in text first) and `writeConfig`. */
  function ConfigStep(st: State, b: Binary, s: Settings.Settings, w: World, version: string,
                      user: string, password: string): State
  {
    if st.r.Fail? || b.config == "" then st
    else
      var sample := SamplePath(s, version, b);
      var fs := if b.exampleGenerate && b.name == "dcrd" then st.fs[sample := w.dcrdSample] else st.fs;
      if sample !in fs then State(fs, Fail(OpenFailed(sample)))
      else match LegacyConfig(b.name, s.net, user, password, fs[sample])
        case Err(e) => State(fs, Fail(e))
        case Ok(text) => State(fs[ConfPath(w, b) := text], Pass)
  }

  /** The config loop over `bs`, starting from `st`. */
  function ConfigsOf(bs: seq<Binary>, st: State, s: Settings.Settings, w: World, version: string,
                     user: string, password: string): State
    decreases |bs|
  {
    if bs == [] then st else ConfigsOf(bs[1..], ConfigStep(st, bs[0], s, w, version, user, password), s, w, version, user, password)
  }

  lemma {:induction false} ConfigsOfStuck(bs: seq<Binary>, st: State, s: Settings.Settings, w: World, version: string,
                                          user: string, password: string)
    requires st.r.Fail?
    ensures ConfigsOf(bs, st, s, w, version, user, password) == st
    decreases |bs|
  {
    if bs != [] {
      ConfigsOfStuck(bs[1..], st, s, w, version, user, password);
    }
  }

  /** The config loop of `main`. */
  method WriteConfigs(binaries: seq<Binary>, s: Settings.Settings, w: World, version: string, user: string,
                      password: string, fs0: map<string, string>)
    returns (fs: map<string, string>, r: Outcome<Error>)
    ensures State(fs, r) == ConfigsOf(binaries, State(fs0, Pass), s, w, version, user, password)
  {
    fs := fs0;
    for i := 0 to |binaries|
      invariant ConfigsOf(binaries, State(fs0, Pass), s, w, version, user, password) ==
        ConfigsOf(binaries[i..], State(fs, Pass), s, w, version, user, password)
    {
      var v := binaries[i];
      assert binaries[i..][0] == v && binaries[i..][1..] == binaries[i + 1..];
      ghost var st := ConfigStep(State(fs, Pass), v, s, w, version, user, password);
      if v.config != "" {
        var sample := GoPath.Join(GoPath.Join(s.destination, "decred-" + s.tuple + "-" + version), v.example);
        if v.exampleGenerate && v.name == "dcrd" {
          fs := fs[sample := w.dcrdSample];
        }
        if sample !in fs {
          ConfigsOfStuck(binaries[i + 1..], st, s, w, version, user, password);
          return fs, Fail(OpenFailed(sample));
        }
        var config := CreateConfigNormal(v.name, s.net, user, password, fs[sample]);
        if config.Err? {
          ConfigsOfStuck(binaries[i + 1..], st, s, w, version, user, password);
          return fs, Fail(config.error);
        }
        fs := fs[GoPath.Join(w.appDataDir(v.name, false), v.config) := config.value];
      }
    }
    assert binaries[|binaries|..] == [];
    return fs, Pass;
  }

  /** The loop only adds files. */
  lemma {:induction false} ConfigsOfKeeps(bs: seq<Binary>, st: State, s: Settings.Settings, w: World, version: string,
                                          user: string, password: string, p: string)
    requires p in st.fs
    ensures p in ConfigsOf(bs, st, s, w, version, user, password).fs
    decreases |bs|
  {
    if bs != [] {
      ConfigsOfKeeps(bs[1..], ConfigStep(st, bs[0], s, w, version, user, password), s, w, version, user, password, p);
    }
  }

  /** A loop that gets through writes the config of every binary that has one. */
  lemma {:induction false} ConfigsOfWrites(bs: seq<Binary>, st: State, s: Settings.Settings, w: World, version: string,
                                           user: string, password: string)
    requires ConfigsOf(bs, st, s, w, version, user, password).r.Pass?
    ensures forall k :: 0 <= k < |bs| && bs[k].config != "" ==>
      ConfPath(w, bs[k]) in ConfigsOf(bs, st, s, w, version, user, password).fs
    decreases |bs|
  {
    if bs != [] {
      var st' := ConfigStep(st, bs[0], s, w, version, user, password);
      if st'.r.Fail? {
        ConfigsOfStuck(bs[1..], st', s, w, version, user, password);
      }
      ConfigsOfWrites(bs[1..], st', s, w, version, user, password);
      assert forall k :: 1 <= k < |bs| ==> bs[1..][k - 1] == bs[k];
      if bs[0].config != "" {
        ConfigsOfKeeps(bs[1..], st', s, w, version, user, password, ConfPath(w, bs[0]));
      }
    }
  }

  /** A first install: user name, password, configs, and a wallet unless one exists. */
  function FirstInstallOf(s: Settings.Settings, w: World, version: string, fs: map<string, string>): State {
    if w.user.Err? then State(fs, Fail(NoUser(w.user.error)))
    else if w.password.Err? then State(fs, Fail(NoPassword(w.password.error)))
    else
      var c := ConfigsOf(Binaries, State(fs, Pass), s, w, version, w.user.value, w.password.value);
      if c.r.Fail? || WalletDBExists(w, c.fs) then c
      else if w.createWallet(s.net).Fail? then State(c.fs, Fail(WalletFailed(w.createWallet(s.net).error)))
      else c
  }

  method FirstInstall(s: Settings.Settings, w: World, version: string, fs0: map<string, string>)
    returns (fs: map<string, string>, r: Outcome<Error>)
    ensures State(fs, r) == FirstInstallOf(s, w, version, fs0)
  {
    fs := fs0;
    if w.user.Err? {
      return fs, Fail(NoUser(w.user.error));
    }
    if w.password.Err? {
      return fs, Fail(NoPassword(w.password.error));
    }
    fs, r := WriteConfigs(Binaries, s, w, version, w.user.value, w.password.value, fs);
    if r.Fail? || WalletDBExists(w, fs) {
      return;
    }
    var made := w.createWallet(s.net);
    if made.Fail? {
      return fs, Fail(WalletFailed(made.error));
    }
  }

  // ---------------------------------------------------------------------------
  // copy
  // ---------------------------------------------------------------------------

  function AsComponent(b: Binary): Bundle.Component {
    Bundle.Component(b.name, b.config, b.example, "", b.supportsVersion, false, "")
  }

  const Catalogue: seq<Bundle.Component> :=
    [AsComponent(Binaries[0]), AsComponent(Binaries[1]), AsComponent(Binaries[2]), AsComponent(Binaries[3])]

  /** `.exe` is appended when the host, not the tuple, is Windows. */
  function HostTuple(goos: string): string { if goos == "windows" then "windows" else "" }

  function Exe(goos: string): string { if goos == "windows" then ".exe" else "" }

  /** The copies `ctx.copy` makes. */
  function CopyMoves(s: Settings.Settings, w: World, version: string): seq<Bundle.Move> {
    Bundle.Moves(Catalogue, BundleDir(s, version), s.destination, HostTuple(w.goos))
  }

  /** `ctx.copy` takes `<bundle>/<name>` to `<Destination>/<name>`, each with `.exe`
      on a Windows host. */
  lemma CopyPaths(s: Settings.Settings, w: World, version: string, k: nat)
    requires k < |Binaries|
    ensures CopyMoves(s, w, version)[k] == Bundle.Move(
      GoPath.Join(BundleDir(s, version), Binaries[k].name) + Exe(w.goos),
      GoPath.Join(s.destination, Binaries[k].name) + Exe(w.goos))
  {
    Bundle.MovesAt(Catalogue, BundleDir(s, version), s.destination, HostTuple(w.goos), k);
  }

  function CopyOf(s: Settings.Settings, w: World, version: string, fs: map<string, string>): State {
    var c := Bundle.CopyAll(fs, CopyMoves(s, w, version));
    State(c.fs, if c.err.Some? then Fail(CopyFailed(c.err.value)) else Pass)
  }

  method Copy(s: Settings.Settings, w: World, version: string, fs0: map<string, string>)
    returns (fs: map<string, string>, r: Outcome<Error>)
    ensures State(fs, r) == CopyOf(s, w, version, fs0)
  {
    var err;
    fs, err := Bundle.InstallBinaries(Catalogue, BundleDir(s, version), s.destination, HostTuple(w.goos), fs0);
    r := if err.Some? then Fail(CopyFailed(err.value)) else Pass;
  }

  lemma CataloguePlain()
    ensures Bundle.PlainNames(Catalogue)
  {
    Bundle.LowerIsPlain(Catalogue[0].name);
    Bundle.LowerIsPlain(Catalogue[1].name);
    Bundle.LowerIsPlain(Catalogue[2].name);
    Bundle.LowerIsPlain(Catalogue[3].name);
    assert |Catalogue[0].name| == 6 && |Catalogue[1].name| == 4 && |Catalogue[2].name| == 9 && |Catalogue[3].name| == 12;
  }

  /** No copy lands on a config file. */
  lemma ConfNotCopied(s: Settings.Settings, w: World, version: string, j: nat, k: nat)
    requires j < 3 && k < |Binaries|
    ensures ConfPath(w, Binaries[j]) != CopyMoves(s, w, version)[k].dst
  {
    CopyPaths(s, w, version, k);
    var c := Binaries[j].config;
    var n := Binaries[k].name;
    assert c != "" && c[|c| - 1] == 'f';
    assert n != "" && n[|n| - 1] != 'f';
    JoinLast(w.appDataDir(Binaries[j].name, false), c, "");
    JoinLast(s.destination, n, Exe(w.goos));
  }

  /** `Join(d, x) + e` ends as `x + e` does. */
  lemma JoinLast(d: string, x: string, e: string)
    requires x != "" && (e == "" || e == ".exe")
    ensures var p := GoPath.Join(d, x) + e; p != "" && p[|p| - 1] == (if e == "" then x[|x| - 1] else 'e')
  {
  }

  // ---------------------------------------------------------------------------
  // main
  // ---------------------------------------------------------------------------

  /** The config step of `main`: a first install when `exists` finds no config, and
      nothing at all on an upgrade. */
  function ConfiguredOf(s: Settings.Settings, w: World, version: string, fs: map<string, string>): State {
    if ExistingConfigs(Binaries, w, fs) == [] then FirstInstallOf(s, w, version, fs) else State(fs, Pass)
  }

  /** `main` after `extract` reported `version`: validate, configure, copy. */
  function AfterExtract(s: Settings.Settings, w: World, version: string, fs: map<string, string>): State {
    var v := ValidateOf(Binaries, s, w, version);
    if v.Fail? then State(fs, v)
    else
      var c := ConfiguredOf(s, w, version, fs);
      if c.r.Fail? then c else CopyOf(s, w, version, c.fs)
  }

  /** `main` from `extract` on. */
  function InstallOf(s: Settings.Settings, w: World, fs1: map<string, string>): State {
    var u := ExtractOf(s, w, fs1);
    if u.version.Err? then State(u.fs, Fail(u.version.error)) else AfterExtract(s, w, u.version.value, u.fs)
  }

  /** The settings and file map after the download step. */
  function Fetched(s: Settings.Settings, w: World, fs0: map<string, string>): Result<(Settings.Settings, map<string, string>), Error> {
    if s.skipDownload then Ok((s, fs0))
    else if w.download.Err? then Err(DownloadFailed(w.download.error))
    else Ok((s.(path := w.download.value.0), fs0 + w.download.value.1))
  }

  /** `ctx.main`. */
  function RunOf(s: Settings.Settings, w: World, fs0: map<string, string>): State {
    var pre := Preflight(s, w);
    if pre.Fail? then State(fs0, pre)
    else match Fetched(s, w, fs0)
      case Err(e) => State(fs0, Fail(e))
      case Ok(f) =>
        var v := VerifyOf(f.0, w, f.1);
        if v.Fail? then State(f.1, v)
        else if s.downloadOnly then State(f.1, Pass)
        else InstallOf(f.0, w, f.1)
  }

  method Install(s: Settings.Settings, w: World, fs1: map<string, string>)
    returns (fs: map<string, string>, r: Outcome<Error>)
    ensures State(fs, r) == InstallOf(s, w, fs1)
  {
    var u := ExtractOf(s, w, fs1);
    fs := u.fs;
    if u.version.Err? {
      return fs, Fail(u.version.error);
    }
    var version := u.version.value;
    r := Validate(Binaries, s, w, version);
    if r.Fail? {
      return;
    }
    // recordCurrent only logs and always returns nil.
    var found, err := Exists(Binaries, w, fs);
    if err.None? && |found| == 0 {
      fs, r := FirstInstall(s, w, version, fs);
      if r.Fail? {
        return;
      }
    }
    fs, r := Copy(s, w, version, fs);
  }

  /** `ctx.main`, step by step. */
  method Run(s: Settings.Settings, w: World, fs0: map<string, string>)
    returns (fs: map<string, string>, r: Outcome<Error>)
    ensures State(fs, r) == RunOf(s, w, fs0)
  {
    var running := Running(s, w, "dcrwallet");
    if running.Err? {
      return fs0, Fail(ProbeFailed(running.error));
    } else if running.value {
      return fs0, Fail(StillRunning("dcrwallet"));
    }
    running := Running(s, w, "dcrd");
    if running.Err? {
      return fs0, Fail(ProbeFailed(running.error));
    } else if running.value {
      return fs0, Fail(StillRunning("dcrd"));
    }
    var c := s;
    fs := fs0;
    if !s.skipDownload {
      if w.download.Err? {
        return fs0, Fail(DownloadFailed(w.download.error));
      }
      c := c.(path := w.download.value.0);
      fs := fs0 + w.download.value.1;
    }
    r := Verify(c, w, fs);
    if r.Fail? {
      return;
    }
    if c.downloadOnly {
      return fs, Pass;
    }
    fs, r := Install(c, w, fs);
  }

  // ---------------------------------------------------------------------------
  // Properties of main
  // ---------------------------------------------------------------------------

  /** With DownloadOnly, `main` stops right after `verify`: it succeeds exactly when the
      download and the verification do, and leaves only the downloaded files. */
  lemma DownloadOnlyStopsAfterVerify(s: Settings.Settings, w: World, fs0: map<string, string>)
    requires s.downloadOnly
    ensures RunOf(s, w, fs0).r == Pass <==>
      Fetched(s, w, fs0).Ok? && VerifyOf(Fetched(s, w, fs0).value.0, w, Fetched(s, w, fs0).value.1) == Pass
    ensures RunOf(s, w, fs0).r == Pass ==> RunOf(s, w, fs0).fs == Fetched(s, w, fs0).value.1
  {
  }

  /** A successful copy leaves every binary installed as a copy of the bundle's file. */
  lemma CopyInstalls(s: Settings.Settings, w: World, version: string, fs: map<string, string>)
    requires CopyOf(s, w, version, fs).r.Pass?
    ensures Bundle.InstalledFrom(CopyOf(s, w, version, fs).fs, CopyMoves(s, w, version))
  {
    CataloguePlain();
    Bundle.MovesDisjoint(Catalogue, s.destination, "decred-" + s.tuple + "-" + version, HostTuple(w.goos));
    Bundle.CopyAllInstalled(fs, CopyMoves(s, w, version));
  }

  /** The copy leaves the config files as they were. */
  lemma CopyKeepsConfigs(s: Settings.Settings, w: World, version: string, fs: map<string, string>, j: nat)
    requires j < 3
    ensures var p := ConfPath(w, Binaries[j]); var fs' := CopyOf(s, w, version, fs).fs;
      (p in fs' <==> p in fs) && (p in fs ==> fs'[p] == fs[p])
  {
    var p := ConfPath(w, Binaries[j]);
    var ms := CopyMoves(s, w, version);
    forall k | 0 <= k < |ms| ensures ms[k].dst != p {
      ConfNotCopied(s, w, version, j, k);
    }
    Bundle.CopyAllFrame(fs, ms, p);
  }

  /** A successful install ends with every binary copied from the bundle into the
      destination. */
  lemma InstallEndsWithCopy(s: Settings.Settings, w: World, version: string, fs: map<string, string>)
    requires AfterExtract(s, w, version, fs).r.Pass?
    ensures Bundle.InstalledFrom(AfterExtract(s, w, version, fs).fs, CopyMoves(s, w, version))
  {
    CopyInstalls(s, w, version, ConfiguredOf(s, w, version, fs).fs);
  }

  /** An upgrade (some config already there after unpacking) leaves every config file
      as it was. */
  lemma UpgradeKeepsConfigs(s: Settings.Settings, w: World, version: string, fs: map<string, string>, j: nat)
    requires j < 3
    requires ExistingConfigs(Binaries, w, fs) != []
    ensures var p := ConfPath(w, Binaries[j]); var fs' := AfterExtract(s, w, version, fs).fs;
      (p in fs' <==> p in fs) && (p in fs ==> fs'[p] == fs[p])
  {
    CopyKeepsConfigs(s, w, version, fs, j);
  }

  /** A successful first install (no config there after unpacking) leaves a config
      file for every binary that has one. */
  lemma FreshInstallWritesConfigs(s: Settings.Settings, w: World, version: string, fs: map<string, string>, j: nat)
    requires j < 3
    requires AfterExtract(s, w, version, fs).r.Pass?
    requires ExistingConfigs(Binaries, w, fs) == []
    ensures ConfPath(w, Binaries[j]) in AfterExtract(s, w, version, fs).fs
  {
    FirstInstallFs(s, w, version, fs);
    ConfigsOfWrites(Binaries, State(fs, Pass), s, w, version, w.user.value, w.password.value);
    CopyKeepsConfigs(s, w, version, ConfiguredOf(s, w, version, fs).fs, j);
  }

  /** A first install that gets through has the files its config loop left. */
  lemma FirstInstallFs(s: Settings.Settings, w: World, version: string, fs: map<string, string>)
    requires FirstInstallOf(s, w, version, fs).r.Pass?
    ensures w.user.Ok? && w.password.Ok?
    ensures var c := ConfigsOf(Binaries, State(fs, Pass), s, w, version, w.user.value, w.password.value);
      c.r.Pass? && FirstInstallOf(s, w, version, fs).fs == c.fs
  {
  }
}

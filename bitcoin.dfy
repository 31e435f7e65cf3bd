/** cmd/dcrinstall/bitcoin.go: the bitcoin bundle — finding its archive in a manifest
    through an alias table, reading the version and the cache key out of the archive
    name, the download sequence whose attached signature only warns, the config set-up
    and the binary install. */
module Bitcoin {
  import opened Wrappers
  import opened GoStrings
  import GoPath
  import Config
  import Manifest
  import RelRE
  import Bundle

  /** `bitcoinTuple`: the name bitcoin's archives give each supported tuple. */
  const Aliases: map<string, string> := map[
    "darwin-amd64" := "osx64",
    "windows-amd64" := "win64",
    "linux-amd64" := "x86_64-linux-gnu",
    "linux-arm" := "arm-linux-gnueabihf",
    "linux-arm64" := "aarch64-linux-gnu"
  ]

  // ---------------------------------------------------------------------------
  // bitcoinFindOS
  // ---------------------------------------------------------------------------

  /** What the loop makes of one line. */
  datatype Kind =
    | Skip                                   // does not name the alias, or names an `.exe`
    | Malformed                              // names the alias without being two fields
    | Archive(digest: string, filename: string)

  /** The loop body on one line: the trimmed line must contain the alias, then have
      two fields, the second not ending in `.exe` in any case (the windows setup
      program). */
  function Classify(which: string, l: string): Kind {
    var line := TrimSpace(l);
    if !Contains(line, which) then Skip
    else
      var a := Fields(line);
      if |a| != 2 then Malformed
      else if ToLower(GoPath.Ext(a[1])) == ".exe" then Skip
      else Archive(a[0], a[1])
  }

  /** An archive line is a trimmed line mentioning the alias whose two fields are the
      digest and a file name without an `.exe` extension. */
  lemma ClassifyArchive(which: string, l: string)
    requires Classify(which, l).Archive?
    ensures Contains(TrimSpace(l), which)
    ensures Fields(TrimSpace(l)) == [Classify(which, l).digest, Classify(which, l).filename]
    ensures ToLower(GoPath.Ext(Classify(which, l).filename)) != ".exe"
  {
  }

  /** The lines of a manifest, classified in order. */
  function Kinds(which: string, ls: seq<string>): (ks: seq<Kind>)
    ensures |ks| == |ls|
    decreases |ls|
  {
    if ls == [] then [] else [Classify(which, ls[0])] + Kinds(which, ls[1..])
  }

  /** The loop of `bitcoinFindOS` over the lines still to be read, given by their
      kinds; the first of them is counted as line `i`, and the counter moves on by
      `step` per line. */
  function Scan(which: string, manifest: string, ks: seq<Kind>, i: nat, step: nat): Result<(string, string), Bundle.Error>
    decreases |ks|
  {
    if ks == [] then Err(Bundle.TupleNotFound(which))
    else match ks[0]
      case Skip => Scan(which, manifest, ks[1..], i + step, step)
      case Malformed => Err(Bundle.FindTuple(Manifest.InvalidLine(manifest, i)))
      case Archive(digest, filename) => Ok((digest, filename))
  }

  /** `bitcoinFindOS` over the manifest text, with the line counter advanced per line. */
  function Locate(tuple: string, manifest: string, contents: string): Result<(string, string), Bundle.Error> {
    if tuple !in Aliases then Err(Bundle.UnsupportedTuple(tuple))
    else Scan(Aliases[tuple], manifest, Kinds(Aliases[tuple], Lines(contents)), 1, 1)
  }

  /** `bitcoinFindOS` as written: the line counter starts at 1 and never moves. */
  function LocateAsWritten(tuple: string, manifest: string, contents: string): Result<(string, string), Bundle.Error> {
    if tuple !in Aliases then Err(Bundle.UnsupportedTuple(tuple))
    else Scan(Aliases[tuple], manifest, Kinds(Aliases[tuple], Lines(contents)), 1, 0)
  }

  /** `bitcoinFindOS(tuple, manifest)` over the file map `fs`. */
  method FindOS(tuple: string, fs: map<string, string>, manifest: string)
    returns (r: Result<(string, string), Bundle.Error>)
    ensures tuple !in Aliases ==> r == Err(Bundle.UnsupportedTuple(tuple))
    ensures tuple in Aliases && manifest !in fs ==> r == Err(Bundle.FindTuple(Manifest.OpenFailed(manifest)))
    ensures tuple in Aliases && manifest in fs ==> r == Locate(tuple, manifest, fs[manifest])
  {
    if tuple !in Aliases {
      return Err(Bundle.UnsupportedTuple(tuple));
    }
    var which := Aliases[tuple];
    if manifest !in fs {
      return Err(Bundle.FindTuple(Manifest.OpenFailed(manifest)));
    }
    var rest := fs[manifest];
    var i := 1;
    while true
      invariant Locate(tuple, manifest, fs[manifest]) == Scan(which, manifest, Kinds(which, Lines(rest)), i, 1)
      decreases |rest|
    {
      var k := LineEnd(rest);
      if k == 0 {
        return Err(Bundle.TupleNotFound(which));
      }
      var ks := Kinds(which, Lines(rest));
      assert ks[0] == Classify(which, rest[..k]) && ks[1..] == Kinds(which, Lines(rest[k..]));
      var line := TrimSpace(rest[..k]);
      if !Contains(line, which) {
        rest, i := rest[k..], i + 1;
        continue;
      }
      var a := Fields(line);
      if |a| != 2 {
        return Err(Bundle.FindTuple(Manifest.InvalidLine(manifest, i)));
      }
      if ToLower(GoPath.Ext(a[1])) == ".exe" {
        rest, i := rest[k..], i + 1;
        continue;
      }
      return Ok((a[0], a[1]));
    }
  }

  /** The index of the line that ends the loop, or `|ks|` when none does. */
  function FirstStop(ks: seq<Kind>): (k: nat)
    ensures k <= |ks|
    ensures forall j :: 0 <= j < k ==> ks[j].Skip?
    ensures k < |ks| ==> !ks[k].Skip?
    decreases |ks|
  {
    if ks == [] || !ks[0].Skip? then 0
    else
      var k' := FirstStop(ks[1..]);
      assert forall j :: 0 < j <= k' ==> ks[j] == ks[1..][j - 1];
      1 + k'
  }

  /** The first line that is not skipped decides the result: with none, "not found";
      a malformed one, an error naming its line; otherwise its digest and file name. */
  lemma {:induction false} ScanSpec(which: string, m: string, ks: seq<Kind>, i: nat)
    ensures var k := FirstStop(ks);
      Scan(which, m, ks, i, 1) ==
        if k == |ks| then Err(Bundle.TupleNotFound(which))
        else if ks[k].Malformed? then Err(Bundle.FindTuple(Manifest.InvalidLine(m, i + k)))
        else Ok((ks[k].digest, ks[k].filename))
    decreases |ks|
  {
    if ks != [] && ks[0].Skip? {
      ScanSpec(which, m, ks[1..], i + 1);
      var k := FirstStop(ks);
      if k < |ks| {
        assert ks[k] == ks[1..][k - 1];
      }
    }
  }

  /** Once a line has stopped the loop, nothing after it is read: a second matching
      archive is not noticed. */
  lemma {:induction false} LaterLinesIgnored(which: string, m: string, ks: seq<Kind>, more: seq<Kind>, i: nat)
    requires FirstStop(ks) < |ks|
    ensures Scan(which, m, ks + more, i, 1) == Scan(which, m, ks, i, 1)
    decreases |ks|
  {
    assert (ks + more)[0] == ks[0];
    if ks[0].Skip? {
      assert (ks + more)[1..] == ks[1..] + more;
      LaterLinesIgnored(which, m, ks[1..], more, i + 1);
    }
  }

  /** "unsupported tuple" comes back exactly for the tuples outside the alias table. */
  lemma LocateUnsupported(tuple: string, m: string, contents: string)
    ensures Locate(tuple, m, contents) == Err(Bundle.UnsupportedTuple(tuple)) <==> tuple !in Aliases
  {
    if tuple in Aliases {
      ScanSpec(Aliases[tuple], m, Kinds(Aliases[tuple], Lines(contents)), 1);
    }
  }

  /** The line number an error reports, replaced by `i`. */
  function Renumbered(r: Result<(string, string), Bundle.Error>, i: nat): Result<(string, string), Bundle.Error> {
    if r.Err? && r.error.FindTuple? && r.error.m.InvalidLine? then Err(Bundle.FindTuple(Manifest.InvalidLine(r.error.m.manifest, i)))
    else r
  }

  lemma {:induction false} ScanStuckCounter(which: string, m: string, ks: seq<Kind>, i: nat, j: nat)
    ensures Scan(which, m, ks, i, 0) == Renumbered(Scan(which, m, ks, j, 1), i)
    decreases |ks|
  {
    if ks != [] {
      ScanStuckCounter(which, m, ks[1..], i, j + 1);
    }
  }

  /** As written, the search differs from `Locate` only in the line number of an
      error, which is always 1. */
  lemma AsWrittenIsRenumbered(tuple: string, m: string, contents: string)
    ensures LocateAsWritten(tuple, m, contents) == Renumbered(Locate(tuple, m, contents), 1)
  {
    if tuple in Aliases {
      ScanStuckCounter(Aliases[tuple], m, Kinds(Aliases[tuple], Lines(contents)), 1, 1);
    }
  }

  /** The kinds of a two-line manifest. */
  lemma TwoLines(which: string, good: string, bad: string)
    requires IsLine(good) && IsLine(bad)
    ensures Kinds(which, Lines(good + bad)) == [Classify(which, good), Classify(which, bad)]
  {
    LinesCons(good, bad);
    LinesCons(bad, "");
    assert bad + "" == bad;
    LinesEmpty("");
    assert Lines(good + bad) == [good, bad];
    assert [good, bad][1..] == [bad];
  }

  /** A skipped line followed by a malformed one: the error names line 2 when the
      counter moves, line 1 when it does not. */
  lemma ScanSkipThenMalformed(which: string, m: string, ks: seq<Kind>)
    requires |ks| == 2 && ks[0].Skip? && ks[1].Malformed?
    ensures Scan(which, m, ks, 1, 1) == Err(Bundle.FindTuple(Manifest.InvalidLine(m, 2)))
    ensures Scan(which, m, ks, 1, 0) == Err(Bundle.FindTuple(Manifest.InvalidLine(m, 1)))
  {
    assert ks[1..][0] == ks[1];
  }

  /** A manifest whose second line names the alias but is not two fields: the error
      should name line 2, and as written it names line 1. */
  lemma AsWrittenReportsLineOne(tuple: string, m: string, good: string, bad: string)
    requires tuple in Aliases && IsLine(good) && IsLine(bad)
    requires Classify(Aliases[tuple], good).Skip? && Classify(Aliases[tuple], bad).Malformed?
    ensures Locate(tuple, m, good + bad) == Err(Bundle.FindTuple(Manifest.InvalidLine(m, 2)))
    ensures LocateAsWritten(tuple, m, good + bad) == Err(Bundle.FindTuple(Manifest.InvalidLine(m, 1)))
  {
    var which := Aliases[tuple];
    TwoLines(which, good, bad);
    ScanSkipThenMalformed(which, m, Kinds(which, Lines(good + bad)));
  }

  // ---------------------------------------------------------------------------
  // The version and the cache key in an archive name
  // ---------------------------------------------------------------------------

  /** `[[:digit:]]+\.[[:digit:]]+\.[[:digit:]]+` tried at `p`: where the match ends. A
      run of digits can only be followed by a dot when it is taken whole. */
  function TripleAt(t: string, p: nat): (r: Option<nat>)
    requires p <= |t|
    ensures r.Some? ==> p < r.value <= |t|
  {
    var a := RelRE.DigitEnd(t, p);
    if a == p || a == |t| || t[a] != '.' then None
    else
      var b := RelRE.DigitEnd(t, a + 1);
      if b == a + 1 || b == |t| || t[b] != '.' then None
      else
        var c := RelRE.DigitEnd(t, b + 1);
        if c == b + 1 then None else Some(c)
  }

  /** `bitcoinVersionRE`, and `bitcoinArchiveRE`, which puts `bitcoin-` in front. */
  datatype Pattern = VersionRE | ArchiveRE

  const ArchivePrefix: string := "bitcoin-"

  /** The pattern tried at `p`: where the match ends. */
  function MatchAt(pat: Pattern, t: string, p: nat): (r: Option<nat>)
    requires p <= |t|
    ensures r.Some? ==> p < r.value <= |t|
  {
    match pat
    case VersionRE => TripleAt(t, p)
    case ArchiveRE =>
      if p + |ArchivePrefix| <= |t| && t[p..p + |ArchivePrefix|] == ArchivePrefix then TripleAt(t, p + |ArchivePrefix|)
      else None
  }

  /** The match at the first position from `p` on that has one. */
  function Leftmost(pat: Pattern, t: string, p: nat): (r: Option<(nat, nat)>)
    requires p <= |t|
    ensures r.Some? ==> p <= r.value.0 < r.value.1 <= |t|
    decreases |t| - p
  {
    match MatchAt(pat, t, p)
    case Some(e) => Some((p, e))
    case None => if p == |t| then None else Leftmost(pat, t, p + 1)
  }

  /** `FindString`: the leftmost match, or "" when there is none. */
  function FindString(pat: Pattern, t: string): string {
    match Leftmost(pat, t, 0)
    case Some((s, e)) => t[s..e]
    case None => ""
  }

  /** `Leftmost` finds nothing exactly when no position has a match. */
  lemma {:induction false} LeftmostNone(pat: Pattern, t: string, p: nat)
    requires p <= |t|
    ensures Leftmost(pat, t, p).None? <==> forall q :: p <= q <= |t| ==> MatchAt(pat, t, q).None?
    decreases |t| - p
  {
    if MatchAt(pat, t, p).None? && p < |t| {
      assert Leftmost(pat, t, p) == Leftmost(pat, t, p + 1);
      LeftmostNone(pat, t, p + 1);
    }
  }

  /** What `Leftmost` finds is a match, and no earlier position has one. */
  lemma {:induction false} LeftmostFirst(pat: Pattern, t: string, p: nat)
    requires p <= |t| && Leftmost(pat, t, p).Some?
    ensures var (s, e) := Leftmost(pat, t, p).value;
      MatchAt(pat, t, s) == Some(e) && forall q :: p <= q < s ==> MatchAt(pat, t, q).None?
    decreases |t| - p
  {
    if MatchAt(pat, t, p).None? {
      assert Leftmost(pat, t, p) == Leftmost(pat, t, p + 1);
      LeftmostFirst(pat, t, p + 1);
    }
  }

  /** `FindString` returns "" exactly when the pattern matches nowhere. */
  lemma FindStringEmpty(pat: Pattern, t: string)
    ensures FindString(pat, t) == "" <==> forall q :: 0 <= q <= |t| ==> MatchAt(pat, t, q).None?
  {
    LeftmostNone(pat, t, 0);
  }

  /** Three runs of digits ending at `a`, `b` and `c`, separated by dots. */
  lemma TripleAtEnds(t: string, p: nat, a: nat, b: nat, c: nat)
    requires p < a && a + 1 < b && b + 1 < c <= |t| && t[a] == '.' && t[b] == '.'
    requires RelRE.DigitsIn(t, p, a) && RelRE.DigitsIn(t, a + 1, b) && RelRE.DigitsIn(t, b + 1, c)
    requires c == |t| || !IsDigit(t[c])
    ensures TripleAt(t, p) == Some(c)
  {
    RelRE.DigitEndOf(t, p, a);
    RelRE.DigitEndOf(t, a + 1, b);
    RelRE.DigitEndOf(t, b + 1, c);
  }

  /** Positions without a digit hold no version match. */
  lemma {:induction false} LeftmostSkips(t: string, p: nat, m: nat)
    requires p <= m <= |t| && forall q :: p <= q < m ==> !IsDigit(t[q])
    ensures Leftmost(VersionRE, t, p) == Leftmost(VersionRE, t, m)
    decreases m - p
  {
    if p < m {
      assert RelRE.DigitEnd(t, p) == p;
      LeftmostSkips(t, p + 1, m);
    }
  }

  /** Where the parts of `bitcoin-X.Y.Z<rest>` sit. */
  lemma ArchiveNameParts(x: string, y: string, z: string, rest: string)
    requires x != "" && y != "" && z != "" && AllDigits(x) && AllDigits(y) && AllDigits(z)
    requires rest == "" || !IsDigit(rest[0])
    ensures var t := ArchivePrefix + x + "." + y + "." + z + rest;
      var a := 8 + |x|; var b := a + 1 + |y|; var c := b + 1 + |z|;
      && c <= |t| && t[a] == '.' && t[b] == '.'
      && RelRE.DigitsIn(t, 8, a) && RelRE.DigitsIn(t, a + 1, b) && RelRE.DigitsIn(t, b + 1, c)
      && (c == |t| || !IsDigit(t[c]))
      && t[..8] == ArchivePrefix && t[..c] == ArchivePrefix + x + "." + y + "." + z
      && t[8..c] == x + "." + y + "." + z
      && forall q :: 0 <= q < 8 ==> !IsDigit(t[q])
  {
    var v := x + "." + y + "." + z;
    TripleParts(ArchivePrefix, x, y, z, rest);
    var t := ArchivePrefix + x + "." + y + "." + z + rest;
    assert forall q :: 0 <= q < 8 ==> t[q] == ArchivePrefix[q];
  }

  /** Where the parts of `p + X.Y.Z<rest>` sit, for any prefix `p`. */
  lemma TripleParts(p: string, x: string, y: string, z: string, rest: string)
    requires AllDigits(x) && AllDigits(y) && AllDigits(z)
    ensures var t := p + x + "." + y + "." + z + rest;
      var a := |p| + |x|; var b := a + 1 + |y|; var c := b + 1 + |z|;
      && c <= |t| && t[a] == '.' && t[b] == '.'
      && RelRE.DigitsIn(t, |p|, a) && RelRE.DigitsIn(t, a + 1, b) && RelRE.DigitsIn(t, b + 1, c)
      && (c == |t| || t[c] == rest[0])
      && t[..|p|] == p && t[..c] == p + x + "." + y + "." + z
      && t[|p|..c] == x + "." + y + "." + z
  {
    var v := x + "." + y + "." + z;
    var t := p + v + rest;
    assert t == p + x + "." + y + "." + z + rest;
    var a := |p| + |x|;
    var b := a + 1 + |y|;
    var c := b + 1 + |z|;
    assert forall q :: |p| <= q < a ==> t[q] == x[q - |p|];
    assert forall q :: a + 1 <= q < b ==> t[q] == y[q - a - 1];
    assert forall q :: b + 1 <= q < c ==> t[q] == z[q - b - 1];
    assert t[..c] == p + v;
  }

  /** The name bitcoin gives its archives, `bitcoin-X.Y.Z<rest>` with `rest` not
      starting with a digit: the version read from it is `X.Y.Z`, and the cache key is
      `bitcoin-X.Y.Z.tar.gz`. */
  lemma ArchiveName(x: string, y: string, z: string, rest: string)
    requires x != "" && y != "" && z != "" && AllDigits(x) && AllDigits(y) && AllDigits(z)
    requires rest == "" || !IsDigit(rest[0])
    ensures var name := ArchivePrefix + x + "." + y + "." + z + rest;
      && FindString(VersionRE, name) == x + "." + y + "." + z
      && CacheKey(name) == ArchivePrefix + x + "." + y + "." + z + ".tar.gz"
  {
    var t := ArchivePrefix + x + "." + y + "." + z + rest;
    ArchiveNameParts(x, y, z, rest);
    var a := 8 + |x|;
    var b := a + 1 + |y|;
    var c := b + 1 + |z|;
    TripleAtEnds(t, 8, a, b, c);
    LeftmostSkips(t, 0, 8);
    assert Leftmost(VersionRE, t, 0) == Some((8, c));
    assert MatchAt(ArchiveRE, t, 0) == Some(c);
    assert Leftmost(ArchiveRE, t, 0) == Some((0, c));
  }

  /** The name whose presence says the archive was already downloaded: the
      `bitcoin-X.Y.Z` match in the manifest's file name, plus `.tar.gz`. */
  function CacheKey(filename: string): string {
    FindString(ArchiveRE, filename) + ".tar.gz"
  }

  /** The archive is downloaded when its name yields no cache key, when forced, or
      when the key has not been seen. */
  predicate ShouldFetch(run: Bundle.Run, env: Bundle.Env, filename: string) {
    var key := CacheKey(filename);
    key == ".tar.gz" || run.forceDownload || !env.seenBefore(key)
  }

  /** A name without `bitcoin-X.Y.Z` is always downloaded, whatever was seen before. */
  lemma NoKeyAlwaysFetches(run: Bundle.Run, env: Bundle.Env, filename: string)
    requires forall q :: 0 <= q <= |filename| ==> MatchAt(ArchiveRE, filename, q).None?
    ensures ShouldFetch(run, env, filename)
  {
    FindStringEmpty(ArchiveRE, filename);
  }

  // ---------------------------------------------------------------------------
  // The catalogue and the precondition check
  // ---------------------------------------------------------------------------

  /** `bitcoinf`. */
  const BF: seq<Bundle.Component> := [
    Bundle.Component("bitcoin-cli", "", "", "", true, false, ""),
    Bundle.Component("bitcoind", "bitcoin.conf", "", "bitcoinSampleConfig", true, false, "bitcoin")
  ]

  /** Both binaries answer `--version`, one comes with a config file, and the names
      are plain and distinct. */
  lemma Catalogue()
    ensures Bundle.Versioned(BF) == 2 && Bundle.WithConfig(BF) == 1
    ensures Bundle.PlainNames(BF)
    ensures forall k :: 0 <= k < |BF| ==> !BF[k].directory
  {
    assert BF[..0] == [];
    Bundle.CountsSnoc(BF, 0);
    Bundle.CountsSnoc(BF, 1);
    assert BF[..2] == BF;
    Bundle.LowerIsPlain(BF[0].name);
    Bundle.LowerIsPlain(BF[1].name);
    assert BF[0].name[7] != BF[1].name[7];
  }

  /** The config folder is the roaming application data directory of `ConfigFolder`. */
  function ConfigDir(env: Bundle.Env): Bundle.Component -> string {
    (c: Bundle.Component) => env.appDataDir(c.configFolder, true)
  }

  /** `preconditionsBitcoinInstall`. */
  method Preconditions(run: Bundle.Run, env: Bundle.Env, fs: map<string, string>) returns (r: Outcome<Bundle.Error>)
    ensures r == Bundle.PreconditionsOf(run.tuple, env, BF, run.destination, ConfigDir(env), fs)
  {
    r := Bundle.Preconditions(run.tuple, env, BF, run.destination, ConfigDir(env), fs);
  }

  /** With one config file the config gate has nothing to compare, so it never fails. */
  lemma ConfigGateNeverFails(env: Bundle.Env, fs: map<string, string>)
    ensures Bundle.AllOrNothing(|Bundle.ConfigScan(BF, ConfigDir(env), fs).present|, Bundle.WithConfig(BF))
  {
    Catalogue();
  }

  /** What the check asks on the native tuple: nothing runs, the versions parse, and
      none or both binaries are installed. */
  predicate Ready(run: Bundle.Run, env: Bundle.Env) {
    env.runtimeTuple != run.tuple ||
      (&& Bundle.Liveness(BF, env.isRunning) == Ok([])
       && Bundle.VersionScan(BF, run.destination, env.versionOutput).Ok?
       && Bundle.AllOrNothing(|Bundle.VersionScan(BF, run.destination, env.versionOutput).value.present|, 2))
  }

  /** The check passes exactly when the installation is ready, whatever the file map
      holds. */
  lemma PreconditionsLaw(run: Bundle.Run, env: Bundle.Env, fs: map<string, string>)
    ensures Bundle.PreconditionsOf(run.tuple, env, BF, run.destination, ConfigDir(env), fs) == Pass <==> Ready(run, env)
  {
    if env.runtimeTuple == run.tuple {
      Catalogue();
      ConfigGateNeverFails(env, fs);
      Bundle.PreconditionsLaw(run.tuple, env, BF, run.destination, ConfigDir(env), fs);
    }
  }

  // ---------------------------------------------------------------------------
  // bitcoinDownloadAndVerify
  // ---------------------------------------------------------------------------

  /** The manifest was fetched, matched its optional digest and gave a download URI. */
  predicate ManifestFetched(env: Bundle.Env, src: Bundle.Source) {
    var body := env.fetch(src.manifestURI);
    && body.Ok?
    && (src.manifestDigest != "" ==> env.sha256(body.value) == src.manifestDigest)
    && env.downloadURI(src.manifestURI).Ok?
  }

  /** The manifest was fetched and matched its optional digest. */
  predicate DigestMatches(env: Bundle.Env, src: Bundle.Source) {
    var body := env.fetch(src.manifestURI);
    body.Ok? && (src.manifestDigest != "" ==> env.sha256(body.value) == src.manifestDigest)
  }

  /** The attached signature was checked and did not verify. */
  predicate SignatureWarned(run: Bundle.Run, env: Bundle.Env, src: Bundle.Source) {
    ManifestFetched(env, src) && !run.skipPGP && env.pgpVerifyAttached(env.fetch(src.manifestURI).value).Fail?
  }

  /** What `bitcoinFindOS` finds in the fetched manifest. */
  function Found(run: Bundle.Run, env: Bundle.Env, src: Bundle.Source): Result<(string, string), Bundle.Error>
    requires env.fetch(src.manifestURI).Ok?
  {
    Locate(run.tuple, Bundle.ManifestPath(run.tmpDir, src.manifestURI), env.fetch(src.manifestURI).value)
  }

  /** The version of an archive: the first `N.N.N` of its base name. */
  function VersionOf(filename: string): string {
    FindString(VersionRE, GoPath.Base(filename))
  }

  /** After the manifest: the archive is found, carries a version, is accepted when it
      has to be fetched, and the installation is ready. */
  predicate ArchiveReady(run: Bundle.Run, env: Bundle.Env, src: Bundle.Source)
    requires ManifestFetched(env, src)
  {
    var found := Found(run, env, src);
    && found.Ok?
    && VersionOf(found.value.1) != ""
    && (ShouldFetch(run, env, found.value.1) ==>
          Bundle.ArchiveAccepted(run, env, env.downloadURI(src.manifestURI).value, found.value.0, found.value.1))
    && Ready(run, env)
  }

  /** The whole sequence succeeds; the signature verdict plays no part. */
  predicate Downloaded(run: Bundle.Run, env: Bundle.Env, src: Bundle.Source) {
    ManifestFetched(env, src) && ArchiveReady(run, env, src)
  }

  /** The manifest half: download, optional digest, download URI, and the attached
      signature, whose failure is only reported back. */
  method FetchManifest(run: Bundle.Run, env: Bundle.Env, src: Bundle.Source, fs0: map<string, string>)
    returns (fs: map<string, string>, downloadURI: string, warned: bool, r: Outcome<Bundle.Error>)
    ensures r.Pass? <==> ManifestFetched(env, src)
    ensures r.Pass? ==>
      && downloadURI == env.downloadURI(src.manifestURI).value
      && fs == fs0[Bundle.ManifestPath(run.tmpDir, src.manifestURI) := env.fetch(src.manifestURI).value]
    ensures warned <==> SignatureWarned(run, env, src)
    ensures r.Fail? ==> r.error.DownloadManifest? || r.error.ManifestDigest? || r.error.DownloadURI?
    ensures env.fetch(src.manifestURI).Err? ==> fs == fs0 && r == Fail(Bundle.DownloadManifest(env.fetch(src.manifestURI).error))
    ensures env.fetch(src.manifestURI).Ok? && src.manifestDigest != "" && env.sha256(env.fetch(src.manifestURI).value) != src.manifestDigest ==>
      r == Fail(Bundle.ManifestDigest(Bundle.ManifestPath(run.tmpDir, src.manifestURI)))
    ensures DigestMatches(env, src) && env.downloadURI(src.manifestURI).Err? ==>
      r == Fail(Bundle.DownloadURI(env.downloadURI(src.manifestURI).error))
  {
    fs, downloadURI, warned := fs0, "", false;
    var manifestFilename := Bundle.ManifestPath(run.tmpDir, src.manifestURI);
    var body := env.fetch(src.manifestURI);
    if body.Err? {
      return fs, downloadURI, warned, Fail(Bundle.DownloadManifest(body.error));
    }
    fs := fs[manifestFilename := body.value];
    if src.manifestDigest != "" {
      // Optional digest was set so check it.
      if env.sha256(fs[manifestFilename]) != src.manifestDigest {
        return fs, downloadURI, warned, Fail(Bundle.ManifestDigest(manifestFilename));
      }
    }
    var uri := env.downloadURI(src.manifestURI);
    if uri.Err? {
      return fs, downloadURI, warned, Fail(Bundle.DownloadURI(uri.error));
    }
    downloadURI := uri.value;
    if !run.skipPGP {
      // The signature's curve is not supported, so a failure only warns.
      var ok := env.pgpVerifyAttached(fs[manifestFilename]);
      warned := ok.Fail?;
    }
    return fs, downloadURI, warned, Pass;
  }

  /** The archive half: find the archive, read its version, fetch it unless its cache
      key was seen before, then check the preconditions. `version` is "" unless one
      was read. */
  method FetchBundle(run: Bundle.Run, env: Bundle.Env, src: Bundle.Source, downloadURI: string, fs0: map<string, string>)
    returns (version: string, fs: map<string, string>, fetched: bool, r: Outcome<Bundle.Error>)
    requires ManifestFetched(env, src) && downloadURI == env.downloadURI(src.manifestURI).value
    requires Bundle.ManifestPath(run.tmpDir, src.manifestURI) in fs0
    requires fs0[Bundle.ManifestPath(run.tmpDir, src.manifestURI)] == env.fetch(src.manifestURI).value
    ensures r.Pass? <==> ArchiveReady(run, env, src)
    ensures Found(run, env, src).Err? ==> r == Fail(Found(run, env, src).error) && version == "" && !fetched && fs == fs0
    ensures Found(run, env, src).Ok? ==>
      var (digest, filename) := Found(run, env, src).value;
      && version == VersionOf(filename)
      && (version != "" ==> (fetched <==> ShouldFetch(run, env, filename)))
      && (fetched && r.Pass? ==> fs == Bundle.Unpacked(run, env, downloadURI, filename, fs0))
      && (!fetched ==> fs == fs0)
    ensures fetched ==> Found(run, env, src).Ok? && ShouldFetch(run, env, Found(run, env, src).value.1)
  {
    version, fs, fetched := "", fs0, false;
    var found := FindOS(run.tuple, fs, Bundle.ManifestPath(run.tmpDir, src.manifestURI));
    if found.Err? {
      return version, fs, fetched, Fail(found.error);
    }
    var (digest, filename) := found.value;
    version := FindString(VersionRE, GoPath.Base(filename));
    if version == "" {
      return version, fs, fetched, Fail(Bundle.NoBitcoinVersion);
    }
    // Work around bitcoin not having a default name.
    var filenameMunged := CacheKey(filename);
    if filenameMunged == ".tar.gz" || run.forceDownload || !env.seenBefore(filenameMunged) {
      fetched := true;
      fs, r := Bundle.FetchArchive(run, env, downloadURI, digest, filename, fs);
      if r.Fail? {
        return;
      }
    }
    r := Preconditions(run, env, fs);
    PreconditionsLaw(run, env, fs);
  }

  /** The notice queued when the signature did not verify. */
  function Warnings(run: Bundle.Run, env: Bundle.Env, src: Bundle.Source): seq<Bundle.Notice> {
    if SignatureWarned(run, env, src) then [Bundle.BitcoinSignature] else []
  }

  /** The version kept for the install: the one read from the archive name, once read. */
  function KeptVersion(run: Bundle.Run, env: Bundle.Env, src: Bundle.Source): string {
    if ManifestFetched(env, src) && Found(run, env, src).Ok? && VersionOf(Found(run, env, src).value.1) != ""
    then VersionOf(Found(run, env, src).value.1) else run.bitcoinVersion
  }

  /** The files once the manifest is stored in the temporary directory. */
  function StoredManifest(run: Bundle.Run, env: Bundle.Env, src: Bundle.Source, fs0: map<string, string>): map<string, string>
    requires env.fetch(src.manifestURI).Ok?
  {
    fs0[Bundle.ManifestPath(run.tmpDir, src.manifestURI) := env.fetch(src.manifestURI).value]
  }

  /** `bitcoinDownloadAndVerify`. A failed signature check never stops the run: it
      queues a notice, and success is decided without it. The version read from the
      archive name is kept for the install. */
  method DownloadAndVerify(run: Bundle.Run, env: Bundle.Env, src: Bundle.Source, fs0: map<string, string>)
    returns (run': Bundle.Run, fs: map<string, string>, fetched: bool, r: Outcome<Bundle.Error>)
    ensures run' == run.(postProcess := run.postProcess + Warnings(run, env, src), bitcoinVersion := KeptVersion(run, env, src))
    ensures r.Pass? <==> Downloaded(run, env, src)
    ensures ManifestFetched(env, src) && Found(run, env, src).Err? ==> r == Fail(Found(run, env, src).error)
    ensures r.Pass? ==> (fetched <==> ShouldFetch(run, env, Found(run, env, src).value.1))
    ensures env.fetch(src.manifestURI).Err? ==> fs == fs0 && !fetched && r == Fail(Bundle.DownloadManifest(env.fetch(src.manifestURI).error))
    ensures fetched ==> ManifestFetched(env, src) && Found(run, env, src).Ok? && ShouldFetch(run, env, Found(run, env, src).value.1)
    ensures ManifestFetched(env, src) && (Found(run, env, src).Err? || !fetched) ==> fs == StoredManifest(run, env, src, fs0)
    ensures r.Pass? && fetched ==>
      fs == Bundle.Unpacked(run, env, env.downloadURI(src.manifestURI).value, Found(run, env, src).value.1, StoredManifest(run, env, src, fs0))
  {
    var downloadURI, warned, version;
    run', fetched := run, false;
    fs, downloadURI, warned, r := FetchManifest(run, env, src, fs0);
    if warned {
      run' := run'.(postProcess := run'.postProcess + [Bundle.BitcoinSignature]);
    }
    if r.Fail? {
      return;
    }
    version, fs, fetched, r := FetchBundle(run, env, src, downloadURI, fs);
    if version != "" {
      run' := run'.(bitcoinVersion := version);
    }
  }

  // ---------------------------------------------------------------------------
  // Config and binaries
  // ---------------------------------------------------------------------------

  /** The sample comes from memory. */
  function SampleOf(env: Bundle.Env): Bundle.Component -> Bundle.Sample {
    (c: Bundle.Component) => Bundle.FromMemory(env.sampleConfig(c.sampleMemory))
  }

  /** The settings bitcoind receives. */
  function Overrides(username: string, password: string): seq<Config.Override> {
    [ Config.Override("#rpcuser=", username), Config.Override("#rpcpassword=", password),
      Config.Override("#server=", "1"), Config.Override("#prune=", "550"), Config.Override("#debug=", "rpc") ]
  }

  function OverridesOf(run: Bundle.Run): Bundle.Component -> seq<Config.Override> {
    (c: Bundle.Component) => Overrides(run.username, run.password)
  }

  /** A `#`-commented key that no other override shares position `d` with is switched
      on: its marker goes and its value follows. */
  lemma HashActivates(ovs: seq<Config.Override>, k: nat, d: nat, rest: string)
    requires k < |ovs| && 1 < |ovs[k].name| && ovs[k].name[0] == '#' && ovs[k].name[1] !in Config.CommentMarkers
    requires d < |ovs[k].name|
    requires forall j :: 0 <= j < |ovs| ==> ovs[j].name != "" && ovs[j].name[0] == '#'
    requires forall j :: 0 <= j < |ovs| && j != k ==> d < |ovs[j].name| && ovs[j].name[d] != ovs[k].name[d]
    ensures Config.ApplyOverrides(ovs[k].name + rest, ovs) == ovs[k].name[1..] + ovs[k].content + "\n"
  {
    var key := ovs[k].name[1..];
    assert ovs[k].name == "#" + key;
    Config.TrimHash(key);
    Config.Activates(ovs, k, d, rest);
  }

  /** Each setting is switched on in the sample with its value: the commented entry
      `#key=...` becomes `key=<value>`. */
  lemma ConfigLine(u: string, p: string, k: nat, rest: string)
    requires k < 5
    ensures var o := Overrides(u, p)[k];
      Config.ApplyOverrides(o.name + rest, Overrides(u, p)) == o.name[1..] + o.content + "\n"
  {
    var ovs := Overrides(u, p);
    var d := if k < 2 then 5 else 1;
    assert ovs[0].name[1] == 'r' && ovs[0].name[5] == 's';
    assert ovs[1].name[1] == 'r' && ovs[1].name[5] == 'a';
    assert ovs[2].name[1] == 's' && ovs[2].name[5] == 'e';
    assert ovs[3].name[1] == 'p' && ovs[3].name[5] == 'e';
    assert ovs[4].name[1] == 'd' && ovs[4].name[5] == 'g';
    HashActivates(ovs, k, d, rest);
  }

  /** The config loop of `installBitcoinBundleConfig` over `bitcoinf`. */
  function Configured(run: Bundle.Run, env: Bundle.Env, fs: map<string, string>): Bundle.Written {
    Bundle.WriteConfigs(BF, ConfigDir(env), SampleOf(env), OverridesOf(run), fs)
  }

  /** The config loop never fails, keeps every existing file, and leaves bitcoin.conf
      in place: as it was, or rendered from the compiled-in sample. */
  lemma ConfiguredFacts(run: Bundle.Run, env: Bundle.Env, fs0: map<string, string>)
    ensures Configured(run, env, fs0).err.None?
    ensures forall p :: p in fs0 ==> p in Configured(run, env, fs0).fs && Configured(run, env, fs0).fs[p] == fs0[p]
    ensures var dst := Bundle.ConfigPath(ConfigDir(env), BF[1]);
      && dst in Configured(run, env, fs0).fs
      && (dst !in fs0 ==>
            Configured(run, env, fs0).fs[dst] == Config.Render(env.sampleConfig("bitcoinSampleConfig"), Overrides(run.username, run.password)))
  {
    var dirOf, sampleOf, ovs := ConfigDir(env), SampleOf(env), OverridesOf(run);
    assert Bundle.Separate(BF, dirOf, sampleOf);
    Bundle.WriteConfigsOk(BF, dirOf, sampleOf, ovs, fs0);
    Bundle.WriteConfigsKeepExisting(BF, dirOf, sampleOf, ovs, fs0);
    Bundle.WriteConfigsComplete(BF, dirOf, sampleOf, ovs, fs0);
    Bundle.WriteConfigsRender(BF, dirOf, sampleOf, ovs, fs0);
  }

  /** `installBitcoinBundleConfig`: nothing on a foreign tuple, otherwise the config
      loop; it never fails. */
  method InstallBundleConfig(run: Bundle.Run, env: Bundle.Env, fs0: map<string, string>)
    returns (fs: map<string, string>, r: Outcome<Bundle.Error>)
    ensures r == Pass
    ensures env.runtimeTuple != run.tuple ==> fs == fs0
    ensures env.runtimeTuple == run.tuple ==> fs == Configured(run, env, fs0).fs
  {
    if env.runtimeTuple != run.tuple {
      return fs0, Pass;
    }
    var err;
    fs, err := Bundle.InstallConfigs(BF, ConfigDir(env), SampleOf(env), OverridesOf(run), fs0);
    ConfiguredFacts(run, env, fs0);
    return fs, Pass;
  }

  /** `<destination>/bitcoin-<version>/bin`. */
  function BinDir(run: Bundle.Run): string {
    GoPath.Join(GoPath.Join(run.destination, ArchivePrefix + run.bitcoinVersion), "bin")
  }

  function BinaryMoves(run: Bundle.Run): seq<Bundle.Move> {
    Bundle.Moves(BF, BinDir(run), run.destination, run.tuple)
  }

  /** Each binary is copied from the archive's `bin` folder to `<destination>/<name>`,
      with `.exe` on both ends exactly on a `windows*` tuple, and no two copies touch
      the same file. */
  lemma BinaryMovesShape(run: Bundle.Run)
    ensures Bundle.Disjoint(BinaryMoves(run))
    ensures forall k :: 0 <= k < |BF| ==>
      var e := if Bundle.IsWindows(run.tuple) then ".exe" else "";
      BinaryMoves(run)[k] == Bundle.Move(GoPath.Join(BinDir(run), BF[k].name) + e, GoPath.Join(run.destination, BF[k].name) + e)
  {
    BinaryMovesDisjoint(run);
    Catalogue();
    forall k | 0 <= k < |BF| ensures BinaryMoves(run)[k] == Bundle.BinaryMove(BinDir(run), run.destination, run.tuple, BF[k]) {
      Bundle.MovesAt(BF, BinDir(run), run.destination, run.tuple, k);
    }
  }

  lemma BinaryMovesDisjoint(run: Bundle.Run)
    ensures Bundle.Disjoint(BinaryMoves(run))
  {
    CatalogueNames();
    var sub := ArchivePrefix + run.bitcoinVersion;
    Bundle.JoinNested(run.destination, sub, "bin");
    assert BinDir(run) == GoPath.Join(run.destination, sub + "/bin");
    Bundle.MovesDisjoint(BF, run.destination, sub + "/bin", run.tuple);
  }

  lemma CatalogueNames()
    ensures Bundle.PlainNames(BF)
  {
    Catalogue();
  }

  /** The files once the config step has run: the config loop's on the native tuple,
      the starting files elsewhere. */
  function AfterConfig(run: Bundle.Run, env: Bundle.Env, fs0: map<string, string>): map<string, string> {
    if env.runtimeTuple == run.tuple then Configured(run, env, fs0).fs else fs0
  }

  /** `installBitcoinBundle`: config first, then the remove-then-copy loop.
      The result is the copy loop run on the configured files: it succeeds exactly when
      every source is there, and a failing copy leaves the copies before it in place. */
  method InstallBundle(run: Bundle.Run, env: Bundle.Env, fs0: map<string, string>)
    returns (fs: map<string, string>, r: Outcome<Bundle.Error>)
    ensures r.Pass? ==> Bundle.InstalledFrom(fs, BinaryMoves(run))
    ensures r.Pass? ==> forall p :: p in fs0 && !Bundle.IsDst(BinaryMoves(run), p) ==> p in fs && fs[p] == fs0[p]
    ensures r.Fail? ==> r.error.FileNotFound? && exists k :: 0 <= k < |BF| && BinaryMoves(run)[k].src == r.error.path
    ensures Bundle.Written(fs, if r.Pass? then None else Some(r.error)) == Bundle.CopyAll(AfterConfig(run, env, fs0), BinaryMoves(run))
    ensures r.Pass? <==> forall k :: 0 <= k < |BF| ==> BinaryMoves(run)[k].src in AfterConfig(run, env, fs0)
    ensures r.Pass? ==>
      forall p :: p in AfterConfig(run, env, fs0) && !Bundle.IsDst(BinaryMoves(run), p) ==> p in fs && fs[p] == AfterConfig(run, env, fs0)[p]
  {
    var fs1;
    fs1, r := InstallBundleConfig(run, env, fs0);
    if env.runtimeTuple == run.tuple {
      ConfiguredFacts(run, env, fs0);
    }
    var err;
    fs, err := Bundle.InstallBinaries(BF, BinDir(run), run.destination, run.tuple, fs1);
    BinaryMovesShape(run);
    if err.Some? {
      Bundle.CopyAllStopsAtMissing(fs1, BinaryMoves(run));
      Bundle.CopyAllOk(fs1, BinaryMoves(run));
      return fs, Fail(err.value);
    }
    Bundle.CopyAllInstalled(fs1, BinaryMoves(run));
    Bundle.CopyAllOk(fs1, BinaryMoves(run));
    forall p | p in fs1 && !Bundle.IsDst(BinaryMoves(run), p) ensures p in fs && fs[p] == fs1[p] {
      Bundle.CopyAllFrame(fs1, BinaryMoves(run), p);
    }
    return fs, Pass;
  }
}

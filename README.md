# dcrinstall in Dafny

A Dafny model of `cmd/dcrinstall`, the installer of the Decred binary releases, together
with proofs about what it does.

The installer fetches a release manifest, a list of `<sha256> <filename>` lines, and picks
out the package for the host's os-arch tuple. It checks the manifest's PGP signature and
the package's digest, then unpacks the package. Before it installs anything it refuses to
go on while a daemon of the release is still running, or while only some of the release's
versioned binaries are installed. On a first install it writes configuration files
from the samples, with the user's RPC credentials switched on. Finally it copies the
binaries into the destination directory.

The source holds two generations of this logic, and the model keeps them apart.

- **The older, `ctx`-based installer** (`dcrinstall.go`, `settings.go`, `util.go`,
  `util_unix.go`) installs the single decred release: modules `Dcrinstall`, `Settings`,
  `Util`, `UtilUnix` and `Manifest` (its `findOS`).
- **The newer installer** (`decred.go`, `bitcoin.go`, `dcrdex.go`, `config.go`,
  `semver.go`, `isrunning_unix.go`, `isrunning_windows.go`) works on package-level
  variables and installs three bundles, each from its own catalogue: modules `Decred`,
  `Bitcoin`, `Dcrdex`, `Config`, `SemVer`, `IsRunningUnix` and `IsRunningWindows`.
  What the three bundle files repeat is in `Bundle`:
  - the three gates of the precondition check (nothing running, one version, configs all
    or none);
  - the config writer;
  - the remove-then-copy loop;
  - the download-and-verify sequence of decred and dcrdex, which is the same code twice.

Shared pieces:

- `GoStrings`, `GoPath`: the parts of Go's `strings`, `bufio` and `path/filepath` that the
  installer relies on.
- `RelRE`: the release pattern of `semver.go`, written as a leftmost-first scanner.
- `Wrappers`: `Option`, `Result` and `Outcome`.

How the model stands for the outside world:

- The file system is a map from path to contents. An unpacked archive, a written config
  and a copied binary are all updates of that map.
- Everything the installer asks of the outside world is a field of a `World` or `Env`
  record: running `ps` or a binary, HTTP downloads, SHA-256, PGP, unpacking, the user's
  answers, `dcrutil.AppDataDir`, `runtime.GOOS` and the host tuple.
- Loops the source writes as loops are methods with invariants. Each method is proved
  equal to a function, and the properties are lemmas about that function.

## Model

| member | source | states |
|---|---|---|
| Settings.ParseSettings | cmd/dcrinstall/settings.go:45-115 | Accepted exactly when `-version` is off, the tuple is non-empty, `-skip` comes with a path and without `-downloadonly`, the net is one of the three, and the destination expands. An accepted result is never quiet, verifies exactly when the URI is the default, and copies the other flags unchanged. |
| Settings.CheckOrder | cmd/dcrinstall/settings.go:73-98 | The first failing check decides the error: empty tuple, then skip without path, then skip with downloadonly, then bad net, then the expansion of the destination. |
| Settings.DefaultsAccepted | cmd/dcrinstall/settings.go:19-27 | The defaults (`~/decred`, the latest manifest, mainnet, the default URI, verbose) are accepted on any host with a tuple, with signature checking on. |
| Settings.QuietWins | cmd/dcrinstall/settings.go:100-105 | `-quiet` turns verbose output off whatever `-verbose` says. |
| Settings.SkipNeedsPath | cmd/dcrinstall/settings.go:76-81 | `-skip` is accepted only with a download path and without `-downloadonly`. |
| Settings.CustomURISkipsVerify | cmd/dcrinstall/settings.go:82-84 | Signature checking stays on exactly for the default URI. |
| Util.Answer | cmd/dcrinstall/util.go:65-73 | An input whose first line is all white space gives the default. Otherwise the answer is that line with exactly its leading and trailing white space removed: non-empty, blank at neither end, and surrounded by nothing but white space. |
| Util.AnswerOfTyped | cmd/dcrinstall/util.go:65-73 | An answer typed on a line of its own comes back as typed, whatever follows it. |
| Util.AnswerOfEmpty | cmd/dcrinstall/util.go:65-73 | An empty line, or no input at all, gives the default. |
| Util.YesIff | cmd/dcrinstall/util.go:75-86 | `yes` holds exactly when the first non-blank character is `y` or `Y`. |
| Util.ArchiveOf | cmd/dcrinstall/util.go:148-152 | A package is unzipped exactly when its name ends in `.zip`; otherwise it is gunzipped. |
| Util.VersionString | cmd/dcrinstall/util.go:163-166 | The version `ctx.extract` reports is `v<major>.<minor>.<patch>`, with `-<pre>` exactly when there is a pre-release. |
| UtilUnix.PsArgs | cmd/dcrinstall/util_unix.go:21-27 | `ps` gets `aeww` on Linux and `Aaeww` elsewhere. |
| UtilUnix.IsRunning | cmd/dcrinstall/util_unix.go:18-57 | A `ps` failure is returned. Otherwise the answer is yes exactly when a newline-terminated line matches and its match splits on `=` into exactly two parts. |
| UtilUnix.RunningIff | cmd/dcrinstall/util_unix.go:37-54 | The loop answers yes exactly when one of the lines it reads qualifies. |
| UtilUnix.RunningIgnoresFragment | cmd/dcrinstall/util_unix.go:37-43 | A last line without a newline is never examined. |
| UtilUnix.EnvLine | cmd/dcrinstall/util_unix.go:34-54 | A `_=<path ending in name>` line counts exactly when the path holds no `=` of its own. |
| UtilUnix.WholeMatch | cmd/dcrinstall/util_unix.go:34 | The greedy pattern matches such a line whole. |
| IsRunningUnix.PsArgs | cmd/dcrinstall/isrunning_unix.go:25-31 | `ps` gets `-Aaww` on Linux and `Aaww` elsewhere: one argument, which starts with `-` exactly on Linux. |
| IsRunningUnix.IsRunning | cmd/dcrinstall/isrunning_unix.go:21-57 | A `ps` failure is returned. Otherwise the answer is yes exactly when a newline-terminated line holds the name as a whole word. |
| IsRunningUnix.RunningIff | cmd/dcrinstall/isrunning_unix.go:38-56 | Yes exactly when one of the newline-terminated lines matches the word pattern. |
| IsRunningUnix.RunningIgnoresFragment | cmd/dcrinstall/isrunning_unix.go:40-46 | A final line without a newline is never examined. |
| IsRunningUnix.MatchesBetween | cmd/dcrinstall/isrunning_unix.go:38 | A name between two non-word characters matches. |
| IsRunningUnix.LongerWordDoesNotMatch | cmd/dcrinstall/isrunning_unix.go:38 | A name that runs on into a word character does not match there: `dcrd` is not found in a line that names only `dcrdata`. |
| IsRunningWindows.NewWindowsProcess | cmd/dcrinstall/isrunning_windows.go:65-80 | The executable name is the decoding up to the first 0 found at an even index. An index that runs off the buffer, a panic in Go, gives no process. |
| IsRunningWindows.ProcessOfIsWholeName | cmd/dcrinstall/isrunning_windows.go:67-79 | Whenever the scan finds a 0, the name is the whole buffer decoded up to its first 0: stepping by two loses nothing. |
| IsRunningWindows.PanicsIff | cmd/dcrinstall/isrunning_windows.go:67-73 | The scan runs off the buffer, a panic in Go, exactly when every even index of the buffer is non-zero. |
| IsRunningWindows.CollectProcesses | cmd/dcrinstall/isrunning_windows.go:34-53 | The loop over the one reused entry equals `Collect` over the entries the system calls return. |
| IsRunningWindows.CollectOrder | cmd/dcrinstall/isrunning_windows.go:40-53 | The collected processes are, in order, exactly the entries before the end of the enumeration, each built by `newWindowsProcess`. |
| IsRunningWindows.CollectFails | cmd/dcrinstall/isrunning_windows.go:44-49 | Any other enumeration error comes back as the error. |
| IsRunningWindows.FindProcessByName | cmd/dcrinstall/isrunning_windows.go:56-63 | The first process whose name equals the given one up to ASCII case, or none when there is no such process. |
| IsRunningWindows.IsRunning | cmd/dcrinstall/isrunning_windows.go:83-93 | Yes exactly when some listed process is named `<name>.exe` up to case. A failed listing is an error. |
| IsRunningWindows.SameNameUpToCase | cmd/dcrinstall/isrunning_windows.go:58 | A name matches its upper-cased form: the comparison ignores ASCII case. |
| SemVer.ParseInt32 | cmd/dcrinstall/semver.go:31-42 | A captured numeral parses exactly when its value is at most 2^31-1, and the `uint32` result is that value. |
| SemVer.ExtractSemVer | cmd/dcrinstall/semver.go:24-51 | The "not semantic versioning" error comes back exactly when the pattern matches nowhere. A range error names a number above 2^31-1. A result holds the first match's groups 2, 3, 4, 6 and 9. |
| SemVer.OutOfRangeFails | cmd/dcrinstall/semver.go:31-42 | A number above 2^31-1 in the first match makes extraction fail. |
| SemVer.ExtractShape | cmd/dcrinstall/semver.go:13 | An extracted version has at most one pre-release identifier, so no dot, and a build that is empty or starts with `+`. |
| SemVer.StringIgnoresBuild | cmd/dcrinstall/semver.go:54-60 | The printed form does not depend on the build. |
| SemVer.StringHasDash | cmd/dcrinstall/semver.go:54-60 | The printed form holds a `-` exactly when there is a pre-release. |
| SemVer.RoundTrip | cmd/dcrinstall/semver.go:24-60 | Printing a version and extracting it again gives the version back without its build, when the numbers fit in 31 bits and the pre-release is one identifier. |
| SemVer.LeadingZeroPatch | cmd/dcrinstall/semver.go:13 | Leftmost-first matching takes a lone `0` as the patch: `1.2.03` reads as 1.2.0. |
| SemVer.FirstIdentifierOnly | cmd/dcrinstall/semver.go:13 | Only the first pre-release identifier is kept; the build keeps its `+`. |
| RelRE.FindSubmatchIsFirstCore | cmd/dcrinstall/semver.go:13 | The optional `v` / `release-v` prefix never changes the captures: the leftmost match captures the first place the rest of the pattern matches. |
| RelRE.FindSubmatchNoneIff | cmd/dcrinstall/semver.go:13 | Nothing is found exactly when no substring matches the pattern. |
| RelRE.FindSubmatchWellFormed | cmd/dcrinstall/semver.go:13 | Every capture has its group's shape: numbers without leading zeros, one pre-release identifier, a build that starts with `+`. |
| RelRE.FindSubmatchOfPrinted | cmd/dcrinstall/semver.go:54-60 | A printed version is read back exactly, without a build, by a match at position 0. |
| Config.CreateConfigNormal | cmd/dcrinstall/config.go:23-44 | Never fails. The result is the newline-terminated lines of the input, each run through the overrides; a final fragment without a newline is dropped. |
| Config.ApplyLine | cmd/dcrinstall/config.go:32-38 | Each override in turn replaces the current line when the line starts with its name. |
| Config.CreateConfigFromMemory | cmd/dcrinstall/config.go:61-64 | Same transform as `createConfigNormal`, over a string. |
| Config.CreateConfigFromFile | cmd/dcrinstall/config.go:48-57 | Fails only when the file is missing; otherwise the transform of its contents. |
| Config.NoMatchUnchanged | cmd/dcrinstall/config.go:32-38 | A line that starts with none of the names is copied unchanged. |
| Config.ResultIsLineOrReplacement | cmd/dcrinstall/config.go:32-38 | A line comes out as itself or as the replacement of one override, the last one that matched. |
| Config.LastMatchWins | cmd/dcrinstall/config.go:32-38 | When the last override matches the line the others left, its replacement is the result. |
| Config.ApplyConcat | cmd/dcrinstall/config.go:32-38 | Applying one list of overrides and then another equals applying their concatenation. |
| Config.LaterOverrideRematches | cmd/dcrinstall/config.go:32-38 | A later override can match what an earlier one wrote: `; key` followed by `key` leaves the second content. |
| Config.ActivatePair | cmd/dcrinstall/config.go:32-38 | Two commented keys that differ within their common length each switch on their own sample line and leave the other's alone. |
| Config.OnlyMatch | cmd/dcrinstall/config.go:32-38 | A line that exactly one override matches becomes that override's line, when no later override matches what it wrote. |
| Config.Activates | cmd/dcrinstall/config.go:32-38 | A commented override whose name differs from every other at a known position turns its sample line into `key` plus its content. |
| Config.EmptyOverridesKeepPrefix | cmd/dcrinstall/config.go:23-44 | Without overrides the output is the input up to and including its last newline. |
| Config.RenderLinesCons | cmd/dcrinstall/config.go:27-42 | The output is the processed lines concatenated in input order. |
| Config.RenderFirstLine | cmd/dcrinstall/config.go:27-42 | Rendering is the first line's output followed by the rendering of the rest. |
| Config.RenderUnterminated | cmd/dcrinstall/config.go:27-31 | Text without a newline renders to nothing. |
| Manifest.FindOS | cmd/dcrinstall/dcrinstall.go:128-172 | A missing manifest is an open error. Otherwise the result equals `Locate`, the scan whose line counter advances by one per line. |
| Manifest.ScanOk | cmd/dcrinstall/dcrinstall.go:139-169 | The scan succeeds exactly when every line has two fields and at most one line is a candidate, counting one already kept. |
| Manifest.LocateOk | cmd/dcrinstall/dcrinstall.go:128-172 | `findOS` succeeds exactly when every line has two fields and at most one line is a non-`.zip` package of the tuple. |
| Manifest.LocateNothing | cmd/dcrinstall/dcrinstall.go:162-171 | With no candidate the result is two empty strings and no error. |
| Manifest.LocateEmptyOnlyWithoutCandidates | cmd/dcrinstall/dcrinstall.go:162-171 | Empty strings come back only when no line is a candidate. |
| Manifest.LocateUnique | cmd/dcrinstall/dcrinstall.go:162-168 | With exactly one candidate the result is its digest and filename. |
| Manifest.LocateTwoCandidates | cmd/dcrinstall/dcrinstall.go:162-165 | A second candidate is a "not unique" error. |
| Manifest.LocateErrorLine | cmd/dcrinstall/dcrinstall.go:146-150 | An error for a line names the first line without two fields. |
| Manifest.LocateIgnoresFragment | cmd/dcrinstall/dcrinstall.go:139-143 | A final fragment without a newline is never read. |
| Manifest.AsWrittenIsRenumbered | cmd/dcrinstall/dcrinstall.go:138-150 | The source as written differs from `Locate` only in the line number of an error, which is always 1. |
| Manifest.AsWrittenReportsLineOne | cmd/dcrinstall/dcrinstall.go:138-150 | A manifest whose second line is malformed: `Locate` reports line 2, the source as written reports line 1. |
| Manifest.AsWrittenExample | cmd/dcrinstall/dcrinstall.go:138-150 | The concrete manifest `d f\nx\n` for `linux-amd64` is reported as wrong at line 1. |
| Manifest.ArmIsNotArm64 | cmd/dcrinstall/dcrinstall.go:152-155 | The added `-` keeps a `linux-arm` install from taking a `linux-arm64` package. |
| Bundle.LivenessSpec | cmd/dcrinstall/decred.go:212-231 | The liveness loop fails exactly when some probe fails, and otherwise lists exactly the running executables. |
| Bundle.VersionScanCounts | cmd/dcrinstall/decred.go:234-265 | Every versioned binary lands in exactly one of the installed and missing lists. |
| Bundle.VersionScanPresent | cmd/dcrinstall/decred.go:238-265 | A binary counts as installed exactly when its `--version` run succeeds and prints a version. |
| Bundle.ConfigScanPresent | cmd/dcrinstall/decred.go:276-297 | The present config files are exactly the catalogue's configs found in the map. |
| Bundle.PreconditionsLaw | cmd/dcrinstall/decred.go:204-311 | On the native tuple the check passes exactly when no probe fails, nothing runs, every version parses, the installed versioned binaries are none or all, and the present configs are none or all. |
| Bundle.BinaryGateFirst | cmd/dcrinstall/decred.go:267-305 | A failing version gate hides whatever the config gate would say. |
| Bundle.Preconditions | cmd/dcrinstall/decred.go:204-311 | The three loops in order, with a foreign tuple skipping them all; the verdict equals `PreconditionsOf`. |
| Bundle.ProbeRunning | cmd/dcrinstall/decred.go:212-231 | Probes every executable, stops at the first probe error, and collects the running names. |
| Bundle.ProbeVersions | cmd/dcrinstall/decred.go:234-274 | The version loop, with its two lists, equals `VersionScan`. |
| Bundle.ProbeConfigs | cmd/dcrinstall/decred.go:277-305 | The config loop, with its two lists, equals `ConfigScan`. |
| Bundle.InstallConfigs | cmd/dcrinstall/decred.go:405-457 | The config loop over a catalogue: its new map and error are those of `WriteConfigs`. |
| Bundle.WriteConfigsKeepExisting | cmd/dcrinstall/decred.go:410-415 | An existing file is never rewritten, and the only files added are config files of the catalogue. |
| Bundle.WriteConfigsElsewhere | cmd/dcrinstall/decred.go:405-457 | A path that is no config of the catalogue is left as it was. |
| Bundle.WriteConfigsFailure | cmd/dcrinstall/decred.go:437-444 | The loop fails only on a sample file that cannot be opened. |
| Bundle.WriteConfigsComplete | cmd/dcrinstall/decred.go:405-457 | After a successful loop every config of the catalogue is present. |
| Bundle.WriteConfigsOk | cmd/dcrinstall/decred.go:437-444 | When configs and samples are separate files, the loop fails exactly when a sample it needs is missing. |
| Bundle.WriteConfigsRender | cmd/dcrinstall/decred.go:437-456 | After a successful loop each config that was missing holds its sample rendered with its overrides. |
| Bundle.InstallBinaries | cmd/dcrinstall/decred.go:521-550 | The remove-then-copy loop: its new map and error are those of `CopyAll` over the catalogue's moves. |
| Bundle.CopyAllFrame | cmd/dcrinstall/decred.go:521-550 | A file that is no destination is left as it was. |
| Bundle.CopyAllOk | cmd/dcrinstall/decred.go:533-535 | With disjoint moves the loop succeeds exactly when every source exists. |
| Bundle.CopyAllContents | cmd/dcrinstall/decred.go:521-550 | With disjoint moves, after a successful loop each destination holds what its source held at the start. |
| Bundle.CopyAllInstalled | cmd/dcrinstall/decred.go:521-550 | A successful loop installs every binary as a copy of the bundle's file and leaves the bundle untouched. |
| Bundle.CopyAllIdempotent | cmd/dcrinstall/decred.go:521-550 | Running the loop again over what the first run left changes nothing. |
| Bundle.CopyAllStopsAtMissing | cmd/dcrinstall/decred.go:533-535 | A failing loop stops at the first missing source, with every earlier move made. |
| Bundle.MovesDisjoint | cmd/dcrinstall/decred.go:522-529 | Sources under `<dest>/<sub>` and destinations under `<dest>` never collide, and distinct plain names give distinct destinations. |
| Bundle.DownloadAndVerify | cmd/dcrinstall/decred.go:316-395 | Equals `DownloadVerdict`: the steps in source order (manifest, optional digest, download URI, signature unless skipped, tuple, version, archive unless seen before, preconditions), the first failing one naming the error. The version is the archive name's exactly once it is read, the archive is fetched exactly when the version is known and it is forced or unseen, and success leaves the downloads plus the unpacked archive. |
| Bundle.DownloadVerdictPass | cmd/dcrinstall/decred.go:316-395 | The sequence succeeds exactly when the manifest is accepted, the tuple is found, the archive name holds a version, a fetched archive is accepted and the preconditions hold on the resulting files. |
| Bundle.FetchManifest | cmd/dcrinstall/decred.go:317-356 | Succeeds exactly when the manifest is accepted, leaving the manifest and signature stored. Otherwise the error is `ManifestFailure`'s, the first failing step among download, optional digest, download URI, signature download and signature check. |
| Bundle.ManifestFailure | cmd/dcrinstall/decred.go:317-356 | A failed manifest download gives `DownloadManifest`; a bad signature after every earlier step passed gives `SignatureIncorrect` with the verifier's message. |
| Bundle.FetchArchive | cmd/dcrinstall/decred.go:175-197 | Succeeds exactly when the archive downloads, matches its digest and unpacks, leaving the stored archive plus the unpacked files. Otherwise the error is `ArchiveFailure`'s: download, digest or unpack, whichever fails first. |
| Bundle.ArchiveFailure | cmd/dcrinstall/decred.go:175-197 | A failed download gives `DownloadBundle`; a downloaded archive whose SHA-256 differs from the manifest's gives `BundleDigest` naming the stored file. |
| Decred.CatalogueCounts | cmd/dcrinstall/decred.go:40-83 | Six binaries answer `--version`, and five come with a config. |
| Decred.CatalogueNames | cmd/dcrinstall/decred.go:40-83 | The names are plain and distinct, and no entry is a directory. |
| Decred.CredentialLines | cmd/dcrinstall/decred.go:417-434 | Rendering switches on the credential lines: the wallet gets `username`/`password`, dcrlnd gets `dcrd.rpcuser`/`dcrd.rpcpass`, and every other config gets `rpcuser`/`rpcpass`. |
| Decred.Preconditions | cmd/dcrinstall/decred.go:204-311 | Equals the shared check over `df`. |
| Decred.PreconditionsLaw | cmd/dcrinstall/decred.go:204-311 | On the native tuple, passes exactly when no probe fails, nothing runs, none or all six versioned binaries answer, and none or all five configs exist. |
| Decred.DownloadAndVerify | cmd/dcrinstall/decred.go:316-395 | Equals the shared verdict over `df`. The decred version is the archive name's exactly when the version was read; otherwise the run is unchanged. |
| Decred.CertPlanOf | cmd/dcrinstall/decred.go:460-475 | All three certificate files present: keep them; none present: generate them; a mix: refuse. |
| Decred.GenerateClientCerts | cmd/dcrinstall/decred.go:88-117 | A gencerts failure changes nothing. Otherwise the client certificate and key are written, and the certificate is copied to the wallet's `clients.pem` unless that already exists, which is an error. On an install with no certificates this is exactly `CertSetup`. |
| Decred.ConfiguredFacts | cmd/dcrinstall/decred.go:405-457 | The config loop keeps every existing file, fails only on a missing sample, and otherwise leaves every config present. |
| Decred.SetUpCerts | cmd/dcrinstall/decred.go:460-475 | Equals `CertSetup`: keeps, generates (as `GenerateClientCerts` does) or refuses as `CertPlanOf` says. No existing file changes, and success leaves all three files present. |
| Decred.SetUpWallets | cmd/dcrinstall/decred.go:478-507 | A missing wallet database makes the installer create the wallet. A missing lightning wallet database queues a notice. |
| Decred.InstallBundleConfig | cmd/dcrinstall/decred.go:397-510 | Nothing on a foreign tuple. Otherwise configs, certificates, wallet and notice in that order, and the resulting files are the configs' plus `CertSetup`'s. It succeeds exactly when `ConfigSucceeds` holds, queues the lightning notice exactly when `LnNoticeDue` holds, and changes no file that existed. |
| Decred.BinaryMovesShape | cmd/dcrinstall/decred.go:521-529 | Each entry moves from the unpacked archive to `<destination>/<name>`, with `.exe` on both ends exactly on `windows*` tuples, and no two moves touch the same file. |
| Decred.InstallBundle | cmd/dcrinstall/decred.go:514-553 | A failed config step ends the install with the config step's files. After a successful one the files and outcome are the copy loop (`CopyAll`) run on the configured files. The install passes exactly when the config step succeeds and every source is there. Success leaves every binary installed as a copy of the archive's file and every other file as the config step left it. The lightning notice is queued exactly when the config step calls for it. |
| Bitcoin.ClassifyArchive | cmd/dcrinstall/bitcoin.go:108-126 | A line is the archive when, trimmed, it mentions the alias and has two fields, and the file name's extension is not `.exe` up to case. |
| Bitcoin.FindOS | cmd/dcrinstall/bitcoin.go:88-130 | An unknown tuple is "unsupported" and a missing manifest an open error. Otherwise the result equals `Locate`, with the line counter advancing. |
| Bitcoin.ScanSpec | cmd/dcrinstall/bitcoin.go:103-129 | The first line that is not skipped decides: none is "not found", a malformed one is an error naming its line, otherwise its digest and filename. |
| Bitcoin.LaterLinesIgnored | cmd/dcrinstall/bitcoin.go:103-127 | Nothing after the deciding line is read: a second archive goes unnoticed. |
| Bitcoin.LocateUnsupported | cmd/dcrinstall/bitcoin.go:89-92 | "unsupported tuple" comes back exactly for tuples outside the alias table. |
| Bitcoin.AsWrittenIsRenumbered | cmd/dcrinstall/bitcoin.go:102-118 | The source as written differs from `Locate` only in the line number of an error, which is always 1. |
| Bitcoin.AsWrittenReportsLineOne | cmd/dcrinstall/bitcoin.go:102-118 | A skipped line followed by a malformed archive line: `Locate` reports line 2, the source as written reports line 1. |
| Bitcoin.LeftmostNone | cmd/dcrinstall/bitcoin.go:39 | The version pattern finds nothing exactly when it matches at no position. |
| Bitcoin.LeftmostFirst | cmd/dcrinstall/bitcoin.go:39 | What is found is a match, and no earlier position has one. |
| Bitcoin.FindStringEmpty | cmd/dcrinstall/bitcoin.go:295-301 | `FindString` returns "" exactly when the pattern matches nowhere. |
| Bitcoin.ArchiveName | cmd/dcrinstall/bitcoin.go:295-310 | From `bitcoin-X.Y.Z<rest>`, with `rest` not starting with a digit, the version read is `X.Y.Z` and the cache key is `bitcoin-X.Y.Z.tar.gz`. |
| Bitcoin.NoKeyAlwaysFetches | cmd/dcrinstall/bitcoin.go:306-315 | A name without `bitcoin-X.Y.Z` is always downloaded, whatever was seen before. |
| Bitcoin.Catalogue | cmd/dcrinstall/bitcoin.go:41-57 | Both binaries answer `--version`, one has a config, and the names are plain and distinct. |
| Bitcoin.Preconditions | cmd/dcrinstall/bitcoin.go:137-250 | Equals the shared check over `bitcoinf`. |
| Bitcoin.ConfigGateNeverFails | cmd/dcrinstall/bitcoin.go:137-250 | With one config file the config gate has nothing to compare and never fails. |
| Bitcoin.PreconditionsLaw | cmd/dcrinstall/bitcoin.go:137-250 | The check passes exactly on a foreign tuple, or when no probe fails, nothing runs, every version parses and both versioned binaries are installed or neither, whatever the file map holds. |
| Bitcoin.FetchManifest | cmd/dcrinstall/bitcoin.go:252-289 | Succeeds exactly when the manifest is fetched, matches its optional digest and gives a download URI, each failure reported with its own error; a failed download changes nothing. A failed signature only sets the warning. |
| Bitcoin.FetchBundle | cmd/dcrinstall/bitcoin.go:291-330 | Locate the archive, read its version, fetch it exactly when its cache key calls for it, then check the preconditions; a fetch happens only for a located archive. |
| Bitcoin.DownloadAndVerify | cmd/dcrinstall/bitcoin.go:252-331 | A failed signature never decides success. The version read from the archive name is kept for the install. The files are the stored manifest, plus the unpacked archive when it was fetched and accepted; a failed manifest download changes nothing. |
| Bitcoin.ConfigLine | cmd/dcrinstall/bitcoin.go:357-363 | Each commented entry `#key=` in the sample becomes `key=<value>`. |
| Bitcoin.ConfiguredFacts | cmd/dcrinstall/bitcoin.go:340-387 | The config loop never fails, keeps existing files, and leaves bitcoin.conf present, either as it was or rendered from the sample. |
| Bitcoin.InstallBundleConfig | cmd/dcrinstall/bitcoin.go:333-388 | Nothing on a foreign tuple, otherwise the config loop; never fails. |
| Bitcoin.BinaryMovesShape | cmd/dcrinstall/bitcoin.go:399-411 | Each binary moves from the archive's `bin` directory to `<destination>/<name>`, with `.exe` exactly on `windows*` tuples, and no two moves collide. |
| Bitcoin.InstallBundle | cmd/dcrinstall/bitcoin.go:392-433 | The files and outcome are the copy loop (`CopyAll`) run on the configured files. The install passes exactly when every source is there, a failure names a missing source, and success leaves every binary installed and every other file as the config step left it. |
| Dcrdex.Catalogue | cmd/dcrinstall/dcrdex.go:20-38 | Both executables answer `--version` and have a config; the names are plain and distinct; only `site` is a directory. |
| Dcrdex.SiteIgnored | cmd/dcrinstall/dcrdex.go:72-182 | The `site` directory changes none of the three checks. |
| Dcrdex.ConfigLine | cmd/dcrinstall/dcrdex.go:284-292 | `; rpc=`, `; rpcuser=` and `; rpcpass=` become `rpc=1` and the run's credentials. |
| Dcrdex.Preconditions | cmd/dcrinstall/dcrdex.go:72-182 | Equals the shared check over `dexf`. |
| Dcrdex.PreconditionsLaw | cmd/dcrinstall/dcrdex.go:72-182 | On the native tuple, passes exactly when no probe fails, nothing runs, and of the two executables and of the two configs none or both are there. |
| Dcrdex.DownloadAndVerify | cmd/dcrinstall/dcrdex.go:184-262 | Equals the shared verdict over `dexf`. The dcrdex version is the archive name's exactly when the version was read; otherwise the run is unchanged. |
| Dcrdex.ConfigsSeparate | cmd/dcrinstall/dcrdex.go:272-281 | The two config files are distinct, and no sample is read from a file. |
| Dcrdex.ConfiguredFacts | cmd/dcrinstall/dcrdex.go:271-313 | The config loop never fails, keeps existing files, and leaves both configs present, as they were or rendered from the samples. |
| Dcrdex.InstallBundleConfig | cmd/dcrinstall/dcrdex.go:264-316 | Nothing on a foreign tuple, otherwise the config loop; never fails. |
| Dcrdex.BinaryMovesShape | cmd/dcrinstall/dcrdex.go:327-335 | The executables get `.exe` on both ends exactly on `windows*` tuples, `site` never does, and no two moves collide. |
| Dcrdex.InstallBundle | cmd/dcrinstall/dcrdex.go:320-364 | The files and outcome are the copy loop (`CopyAll`) run on the configured files. The install passes exactly when every source is there, and success leaves every other file as the config step left it. The DCRDEX notice is queued only after every copy succeeded. |
| Dcrinstall.Running | cmd/dcrinstall/dcrinstall.go:326-332 | With DownloadOnly nothing is probed and nothing runs; otherwise the probe's answer. |
| Dcrinstall.PreflightLaw | cmd/dcrinstall/dcrinstall.go:524-536 | `main` goes on exactly when DownloadOnly is set or neither dcrwallet nor dcrd runs. A running dcrwallet is reported first. |
| Dcrinstall.VerifyOf | cmd/dcrinstall/dcrinstall.go:232-276 | Passes exactly when `findOS` succeeds, the signature is accepted or skipped, and the package's SHA-256 equals the manifest's digest. |
| Dcrinstall.Verify | cmd/dcrinstall/dcrinstall.go:232-276 | The step-by-step verify equals `VerifyOf`. |
| Dcrinstall.SkipVerifySkipsOnlySignature | cmd/dcrinstall/dcrinstall.go:242-258 | SkipVerify drops the signature step only: the digest is compared either way. |
| Dcrinstall.CreateConfigNormal | cmd/dcrinstall/dcrinstall.go:387-427 | The line loop with its `seen` flag equals `LegacyConfig`. |
| Dcrinstall.NetLineRequired | cmd/dcrinstall/dcrinstall.go:418-424 | For a valid net, the call fails exactly when the net is not mainnet and no sample line starts with `; <net>=`. |
| Dcrinstall.SetsNetIff | cmd/dcrinstall/dcrinstall.go:404-416 | A line sets the net flag exactly when it starts with the net's key. |
| Dcrinstall.NetSeenIff | cmd/dcrinstall/dcrinstall.go:395-417 | The flag ends up set exactly when some line starts with the net's key. |
| Dcrinstall.UserActivated | cmd/dcrinstall/dcrinstall.go:404-407 | A commented user line becomes the user line with the run's user. |
| Dcrinstall.PasswordActivated | cmd/dcrinstall/dcrinstall.go:408-411 | A commented password line becomes the password line with the run's password. |
| Dcrinstall.NetActivated | cmd/dcrinstall/dcrinstall.go:412-415 | The net's line becomes `<net>=1`. |
| Dcrinstall.ActivatedIsOverrides | cmd/dcrinstall/dcrinstall.go:404-415 | On one line, the three tests equal the newer rewriting with three overrides. |
| Dcrinstall.ActivateLinesIsRender | cmd/dcrinstall/dcrinstall.go:395-417 | Over a whole sample, the older rewriting equals the newer one. |
| Dcrinstall.LegacyMatchesNewer | cmd/dcrinstall/dcrinstall.go:387-427 | When it succeeds, `ctx.createConfigNormal` writes what `config.go`'s `createConfigNormal` writes with the overrides user, password and `<net>=1`. |
| Dcrinstall.Exists | cmd/dcrinstall/dcrinstall.go:362-385 | Returns the existing config paths with the "already exists" error, or nothing when none exists. |
| Dcrinstall.ExistingConfigsNone | cmd/dcrinstall/dcrinstall.go:362-385 | No name is found exactly when no config path is present. |
| Dcrinstall.PromptsecretProbesDataDir | cmd/dcrinstall/dcrinstall.go:366-373 | promptsecret has no config, so `exists` probes its data directory, and finding it makes the run an upgrade. |
| Dcrinstall.WalletDBExistsIff | cmd/dcrinstall/dcrinstall.go:472-481 | A wallet database exists exactly when one of the three nets has one. |
| Dcrinstall.Validate | cmd/dcrinstall/dcrinstall.go:304-324 | The loop equals `ValidateOf`. |
| Dcrinstall.ValidateSpec | cmd/dcrinstall/dcrinstall.go:304-324 | `validate` passes exactly when every binary starts, and otherwise names the first that does not. |
| Dcrinstall.WriteConfigs | cmd/dcrinstall/dcrinstall.go:589-609 | The config loop equals `ConfigsOf`. |
| Dcrinstall.ConfigsOfKeeps | cmd/dcrinstall/dcrinstall.go:589-609 | The loop only adds files. |
| Dcrinstall.ConfigsOfWrites | cmd/dcrinstall/dcrinstall.go:589-609 | A loop that gets through writes the config of every binary that has one. |
| Dcrinstall.FirstInstall | cmd/dcrinstall/dcrinstall.go:573-619 | User, password, configs and wallet in order; equals `FirstInstallOf`. |
| Dcrinstall.CopyPaths | cmd/dcrinstall/dcrinstall.go:279-301 | `ctx.copy` moves `<bundle>/<name>` to `<Destination>/<name>`, each with `.exe` on a Windows host. |
| Dcrinstall.Copy | cmd/dcrinstall/dcrinstall.go:279-301 | The copy loop equals `CopyOf`. |
| Dcrinstall.ConfNotCopied | cmd/dcrinstall/dcrinstall.go:279-301 | No copy lands on a config file. |
| Dcrinstall.Install | cmd/dcrinstall/dcrinstall.go:555-625 | Extract, validate, install or upgrade, copy; equals `InstallOf`. |
| Dcrinstall.Run | cmd/dcrinstall/dcrinstall.go:523-628 | `ctx.main` step by step: its final file map and error equal `RunOf`, the sequence of preflight, download, verify, install. |
| Dcrinstall.DownloadOnlyStopsAfterVerify | cmd/dcrinstall/dcrinstall.go:545-553 | With DownloadOnly, `main` stops after `verify`, succeeds exactly when download and verification do, and leaves only the downloaded files. |
| Dcrinstall.CopyInstalls | cmd/dcrinstall/dcrinstall.go:279-301 | A successful copy installs every binary as a copy of the bundle's file. |
| Dcrinstall.CopyKeepsConfigs | cmd/dcrinstall/dcrinstall.go:279-301 | The copy leaves the config files as they were. |
| Dcrinstall.InstallEndsWithCopy | cmd/dcrinstall/dcrinstall.go:621-627 | A successful install ends with every binary copied from the bundle. |
| Dcrinstall.UpgradeKeepsConfigs | cmd/dcrinstall/dcrinstall.go:570-572 | An upgrade, where some config already exists, leaves every config file as it was. |
| Dcrinstall.FreshInstallWritesConfigs | cmd/dcrinstall/dcrinstall.go:573-609 | A successful first install leaves a config file for every binary that has one. |
| GoPath.BaseOfJoin | cmd/dcrinstall/decred.go:318-319 | The final element of a joined path is its last part, when that part is a plain name other than `.` and `..`. |
| GoPath.ExtOfSuffix | cmd/dcrinstall/dcrinstall.go:157-160 | A final element `x.w`, with no dot or separator in `w`, has the extension `.w`. |
| GoStrings.LineEndSpec | cmd/dcrinstall/config.go:27-31 | `ReadString('\n')` finds a newline exactly when there is one, and then returns one line. |
| GoStrings.FieldsOfPair | cmd/dcrinstall/dcrinstall.go:146 | `strings.Fields` of two words separated by a space is those two words. |

## Left out

- `download.go`, `util_windows.go` and `extract_unix.go` are not part of this model. The older installer's `ctx.download` (`dcrinstall.go:177-229`), with its own `findOS` call and the package URI it builds, is one oracle of the `World` record, `download`, which gives the package path and the files it stores. The HTTP download, the unpacking of archives (`gunzip`, `unzip`) and the Windows `ctx.isRunning` are oracles of the `World`/`Env` records.
- SHA-256, PGP verification, running `ps` and binaries, `gencerts` and `dcrwallet --create` are oracles: their cryptography and process handling are outside the model.
- Logging, `recordCurrent` (it only logs) and the notices printed at the end are not modelled, except the queue of notices in the newer bundles.
- Random passwords and user names, `homedir.Expand`, `dcrutil.AppDataDir`, `runtime.GOOS` and `runtime.GOARCH` are inputs or oracles.
- Command-line parsing with `flag` is not modelled: `ParseSettings` starts from the flag values.
- The Toolhelp system calls of `isrunning_windows.go` are an oracle that fills the entry: the model covers the loop and the name decoding.
- I/O errors of `MkdirAll`, `WriteFile`, `Chmod`, `RemoveAll` and `Copy` are not modelled; directories are not entries of the file map, except promptsecret's data directory, which the older installer's `exists` probes as a path (`Dcrinstall.PromptsecretProbesDataDir`). A copy writes the source's contents, and `site` is one map entry.
- The text of the compiled-in sample configs is left abstract: the lemmas about rendering hold for any sample.
- `lnCreateWallet` is commented out in the source. The model queues the notice that replaces it.
- Unix and Windows `isRunning` are modelled as separate functions: building for a host picks one of them.
- SemVer.RoundTrip: stated only for numbers below 2^31 and a single pre-release identifier, since the source's parser and pattern lose everything else.
- UtilUnix.IsRunning, IsRunningUnix.IsRunning: the name is taken to hold no regular-expression metacharacters, since the source interpolates it into the pattern unescaped.
- Manifest.FindOS: a malformed manifest line is reported with its true line number, where `findOS` in `dcrinstall.go` always reports line 1 because its counter never advances. The as-written behaviour is `Manifest.FindOSAsWritten` (see Findings). The same holds for the callers whose error carries that line: `Dcrinstall.Verify`, `Bundle.DownloadAndVerify` and the Decred and Dcrdex wrappers.
- Bitcoin.FindOS: the same corrected counter, where `bitcoinFindOS` always reports line 1. The as-written behaviour is `Bitcoin.LocateAsWritten` (see Findings), and `Bitcoin.DownloadAndVerify` inherits the corrected line number.
- GoPath.Join: `filepath.Clean` is not applied to the result. `/opt/` and `dcrd` give `/opt//dcrd` where Go gives `/opt/dcrd`, and `.` and `..` elements are kept where Go resolves them. Paths in the model are therefore compared exactly as built.
- GoPath.BaseOfJoin: stated only for a final name other than `.` and `..`. For those two, Go's `Join` resolves the name away, so its final element is not the name.
- IsRunningWindows.FindProcessByName: names are compared up to ASCII case only, while Go's `strings.ToLower` also folds non-ASCII letters. Two names that differ only in the case of a non-ASCII letter match in the source but not in the model.
- IsRunningWindows.IsRunning: inherits the ASCII-only case folding of `FindProcessByName`.

## Findings

| source | as written | input that shows it | evidently intended | confidence | as-written member | corrected member |
|---|---|---|---|---|---|---|
| cmd/dcrinstall/dcrinstall.go:138-150 | `findOS` sets its line counter `i` to 1 and never advances it, so every "invalid manifest … line" error says line 1 | manifest `d f\nx\n` for tuple `linux-amd64`: the malformed line is line 2 | the error names the line that is malformed | not executed | Manifest.AsWrittenReportsLineOne | Manifest.LocateErrorLine |
| cmd/dcrinstall/bitcoin.go:102-118 | `bitcoinFindOS` sets its line counter `i` to 1 and never advances it | a skipped line followed by a line that mentions the alias but has three fields: the error says line 1 | the error names the line that is malformed | not executed | Bitcoin.AsWrittenReportsLineOne | Bitcoin.ScanSpec |

/** cmd/dcrinstall/dcrinstall.go, `findOS`: picking the package of one os-arch tuple
    out of a release manifest of `<digest> <filename>` lines. */
module Manifest {
  import opened Wrappers
  import opened GoStrings
  import GoPath

  datatype Error =
    | OpenFailed(path: string)                 // os.Open of the manifest failed
    | InvalidLine(manifest: string, line: nat) // "invalid manifest %v line %v"
    | NotUnique(tuple: string)                 // "os-arch tuple not unique: %v"

  /** The whitespace-separated fields of a manifest line. */
  function LineFields(l: string): seq<string> {
    Fields(TrimSpace(l))
  }

  /** The fields of each line the loop reads, in order. */
  function Entries(s: string): seq<seq<string>>
    decreases |s|
  {
    var k := LineEnd(s);
    if k == 0 then [] else [LineFields(s[..k])] + Entries(s[k..])
  }

  /** A line of the two fields `<digest> <filename>`. */
  predicate WellFormed(a: seq<string>) {
    |a| == 2
  }

  /** A line naming a package of `which`: its filename contains `which-` (the dash tells
      `arm` from `arm64`) and is not a `.zip`. */
  predicate Candidate(which: string, a: seq<string>) {
    |a| == 2 && Contains(a[1], which + "-") && GoPath.Ext(a[1]) != ".zip"
  }

  /** The loop of `findOS` over the lines still to be read, given by their fields
      `es`. The first of them is reported as line `i`, and the counter moves on by
      `step` per line; `digest` and `filename` are what the loop has kept so far. */
  function Scan(which: string, manifest: string, es: seq<seq<string>>, i: nat, step: nat,
                digest: string, filename: string): Result<(string, string), Error>
    decreases |es|
  {
    if es == [] then Ok((digest, filename))
    else
      var a := es[0];
      if |a| != 2 then Err(InvalidLine(manifest, i))
      else if !Contains(a[1], which + "-") || GoPath.Ext(a[1]) == ".zip" then
        Scan(which, manifest, es[1..], i + step, step, digest, filename)
      else if !(digest == "" && filename == "") then Err(NotUnique(which))
      else Scan(which, manifest, es[1..], i + step, step, TrimSpace(a[0]), TrimSpace(a[1]))
  }

  /** `findOS` as written: the line counter starts at 1 and is never advanced. */
  function FindOSAsWritten(which: string, manifest: string, contents: string): Result<(string, string), Error> {
    Scan(which, manifest, Entries(contents), 1, 0, "", "")
  }

  /** `findOS` with the line counter advanced once per line read, so that an error
      names the offending line. */
  function Locate(which: string, manifest: string, contents: string): Result<(string, string), Error> {
    Scan(which, manifest, Entries(contents), 1, 1, "", "")
  }

  /** `findOS(which, manifest)` over the file system `fs` (path to contents), with the
      line counter advanced. */
  method FindOS(which: string, fs: map<string, string>, manifest: string)
    returns (r: Result<(string, string), Error>)
    ensures manifest !in fs ==> r == Err(OpenFailed(manifest))
    ensures manifest in fs ==> r == Locate(which, manifest, fs[manifest])
  {
    if manifest !in fs {
      return Err(OpenFailed(manifest));
    }
    var digest, filename := "", "";
    var rest := fs[manifest];
    var i := 1;
    while true
      invariant Locate(which, manifest, fs[manifest]) == Scan(which, manifest, Entries(rest), i, 1, digest, filename)
      decreases |rest|
    {
      var k := LineEnd(rest);
      if k == 0 {
        break;
      }
      EntriesRead(rest);
      var line := TrimSpace(rest[..k]);
      var a := Fields(line);
      if |a| != 2 {
        return Err(InvalidLine(manifest, i));
      }
      rest, i := rest[k..], i + 1;
      if !Contains(a[1], which + "-") {
        continue;
      }
      if GoPath.Ext(a[1]) == ".zip" {
        continue;
      }
      if !(digest == "" && filename == "") {
        return Err(NotUnique(which));
      }
      digest := TrimSpace(a[0]);
      filename := TrimSpace(a[1]);
    }
    return Ok((digest, filename));
  }

  /** Reading one line off the front. */
  lemma EntriesRead(s: string)
    requires LineEnd(s) > 0
    ensures Entries(s) == [LineFields(s[..LineEnd(s)])] + Entries(s[LineEnd(s)..])
  {
  }

  // ---------------------------------------------------------------------------
  // What the scan selects
  // ---------------------------------------------------------------------------

  /** Every element of every entry is a field: non-empty and without spaces. */
  predicate AreFields(es: seq<seq<string>>) {
    forall k :: 0 <= k < |es| ==> forall j :: 0 <= j < |es[k]| ==> es[k][j] != "" && NoSpace(es[k][j])
  }

  lemma {:induction false} EntriesAreFields(s: string)
    ensures AreFields(Entries(s))
    decreases |s|
  {
    var k := LineEnd(s);
    if k > 0 {
      EntriesAreFields(s[k..]);
      var es, t := Entries(s), Entries(s[k..]);
      assert es == [LineFields(s[..k])] + t;
      forall i | 0 <= i < |es|
        ensures forall j :: 0 <= j < |es[i]| ==> es[i][j] != "" && NoSpace(es[i][j])
      {
        if i > 0 {
          assert es[i] == t[i - 1];
        }
      }
    }
  }

  predicate AllWellFormed(es: seq<seq<string>>) {
    forall k :: 0 <= k < |es| ==> WellFormed(es[k])
  }

  function CandidateCount(which: string, es: seq<seq<string>>): nat
    decreases |es|
  {
    if es == [] then 0 else (if Candidate(which, es[0]) then 1 else 0) + CandidateCount(which, es[1..])
  }

  /** A candidate leaves the fields it kept non-empty. */
  lemma CandidateFields(a: seq<string>)
    requires |a| == 2 && a[0] != "" && NoSpace(a[0]) && a[1] != "" && NoSpace(a[1])
    ensures TrimSpace(a[0]) == a[0] != "" && TrimSpace(a[1]) == a[1] != ""
  {
    TrimSpaceOfField(a[0]);
    TrimSpaceOfField(a[1]);
  }

  lemma AreFieldsTail(es: seq<seq<string>>)
    requires es != [] && AreFields(es)
    ensures AreFields(es[1..])
    ensures forall j :: 0 <= j < |es[0]| ==> es[0][j] != "" && NoSpace(es[0][j])
  {
    assert forall k :: 0 <= k < |es| - 1 ==> es[1..][k] == es[k + 1];
  }

  /** The scan succeeds exactly when every line has two fields and the candidates are
      at most one, counting the one already kept. */
  lemma {:induction false} ScanOk(which: string, m: string, es: seq<seq<string>>, i: nat, step: nat,
                                  d: string, f: string)
    requires AreFields(es)
    ensures Scan(which, m, es, i, step, d, f).Ok? <==>
      AllWellFormed(es) && CandidateCount(which, es) <= (if d == "" && f == "" then 1 else 0)
    decreases |es|
  {
    if es != [] {
      AreFieldsTail(es);
      ScanOk(which, m, es[1..], i + step, step, d, f);
      if Candidate(which, es[0]) {
        CandidateFields(es[0]);
        ScanOk(which, m, es[1..], i + step, step, es[0][0], es[0][1]);
      }
      AllWellFormedCons(es);
    }
  }

  lemma AllWellFormedCons(es: seq<seq<string>>)
    requires es != []
    ensures AllWellFormed(es) <==> WellFormed(es[0]) && AllWellFormed(es[1..])
  {
    assert forall k :: 0 < k < |es| ==> es[k] == es[1..][k - 1];
  }

  /** With no candidate left the scan returns what it has kept. */
  lemma {:induction false} ScanNoCandidate(which: string, m: string, es: seq<seq<string>>, i: nat, step: nat,
                                           d: string, f: string)
    requires AllWellFormed(es) && CandidateCount(which, es) == 0
    ensures Scan(which, m, es, i, step, d, f) == Ok((d, f))
    decreases |es|
  {
    if es != [] {
      AllWellFormedCons(es);
      ScanNoCandidate(which, m, es[1..], i + step, step, d, f);
    }
  }

  /** With a single candidate, the scan returns exactly its two fields. */
  lemma {:induction false} ScanOneCandidate(which: string, m: string, es: seq<seq<string>>, i: nat, step: nat, k: nat)
    requires AreFields(es) && AllWellFormed(es) && CandidateCount(which, es) == 1
    requires k < |es| && Candidate(which, es[k])
    ensures Scan(which, m, es, i, step, "", "") == Ok((es[k][0], es[k][1]))
    decreases |es|
  {
    AllWellFormedCons(es);
    AreFieldsTail(es);
    if k == 0 {
      CandidateFields(es[0]);
      ScanNoCandidate(which, m, es[1..], i + step, step, es[0][0], es[0][1]);
    } else {
      assert es[k] == es[1..][k - 1];
      CountPositive(which, es[1..], k - 1);
      ScanOneCandidate(which, m, es[1..], i + step, step, k - 1);
    }
  }

  lemma {:induction false} CountPositive(which: string, es: seq<seq<string>>, k: nat)
    requires k < |es| && Candidate(which, es[k])
    ensures CandidateCount(which, es) >= 1
    decreases |es|
  {
    if k > 0 {
      assert es[k] == es[1..][k - 1];
      CountPositive(which, es[1..], k - 1);
    }
  }

  /** The position of the candidate in a list that has one. */
  lemma {:induction false} CandidateIndex(which: string, es: seq<seq<string>>) returns (k: nat)
    requires CandidateCount(which, es) >= 1
    ensures k < |es| && Candidate(which, es[k])
    decreases |es|
  {
    if Candidate(which, es[0]) {
      k := 0;
    } else {
      var k' := CandidateIndex(which, es[1..]);
      k := k' + 1;
      assert es[k] == es[1..][k'];
    }
  }

  /** The reported line is the first line without two fields, when the counter
      moves on by one per line. */
  lemma {:induction false} ScanErrorLine(which: string, m: string, es: seq<seq<string>>, i: nat,
                                         d: string, f: string, n: nat)
    requires Scan(which, m, es, i, 1, d, f) == Err(InvalidLine(m, n))
    ensures i <= n < i + |es|
    ensures !WellFormed(es[n - i])
    ensures forall k :: 0 <= k < n - i ==> WellFormed(es[k])
    decreases |es|
  {
    if WellFormed(es[0]) {
      var a := es[0];
      var skip := !Contains(a[1], which + "-") || GoPath.Ext(a[1]) == ".zip";
      var d', f' := if skip then d else TrimSpace(a[0]), if skip then f else TrimSpace(a[1]);
      assert Scan(which, m, es, i, 1, d, f) == Scan(which, m, es[1..], i + 1, 1, d', f');
      ScanErrorLine(which, m, es[1..], i + 1, d', f', n);
      assert es[n - i] == es[1..][n - i - 1];
      forall k | 0 < k < n - i ensures WellFormed(es[k]) {
        assert es[k] == es[1..][k - 1];
      }
    }
  }

  /** The line number an error reports, replaced by `i`. */
  function Renumber(r: Result<(string, string), Error>, i: nat): Result<(string, string), Error> {
    if r.Err? && r.error.InvalidLine? then Err(InvalidLine(r.error.manifest, i)) else r
  }

  /** With a counter that never moves, the scan does the same thing and only the line
      number of an error changes. */
  lemma {:induction false} ScanStuckCounter(which: string, m: string, es: seq<seq<string>>, i: nat, j: nat,
                                            d: string, f: string)
    ensures Scan(which, m, es, i, 0, d, f) == Renumber(Scan(which, m, es, j, 1, d, f), i)
    decreases |es|
  {
    if es != [] {
      var a := es[0];
      if |a| == 2 {
        if !Contains(a[1], which + "-") || GoPath.Ext(a[1]) == ".zip" {
          ScanStuckCounter(which, m, es[1..], i, j + 1, d, f);
        } else if d == "" && f == "" {
          ScanStuckCounter(which, m, es[1..], i, j + 1, TrimSpace(a[0]), TrimSpace(a[1]));
        }
      }
    }
  }

  // ---------------------------------------------------------------------------
  // Properties of findOS
  // ---------------------------------------------------------------------------

  /** `findOS` succeeds exactly when every line has two fields, whether or not it
      names the tuple, and at most one line is a candidate. */
  lemma LocateOk(which: string, m: string, contents: string)
    ensures Locate(which, m, contents).Ok? <==>
      AllWellFormed(Entries(contents)) && CandidateCount(which, Entries(contents)) <= 1
  {
    EntriesAreFields(contents);
    ScanOk(which, m, Entries(contents), 1, 1, "", "");
  }

  /** When nothing matches, `findOS` returns two empty strings and no error. */
  lemma LocateNothing(which: string, m: string, contents: string)
    requires AllWellFormed(Entries(contents)) && CandidateCount(which, Entries(contents)) == 0
    ensures Locate(which, m, contents) == Ok(("", ""))
  {
    ScanNoCandidate(which, m, Entries(contents), 1, 1, "", "");
  }

  /** Empty strings come back only when no line is a candidate: a candidate's fields
      are never empty. */
  lemma LocateEmptyOnlyWithoutCandidates(which: string, m: string, contents: string)
    requires Locate(which, m, contents) == Ok(("", ""))
    ensures CandidateCount(which, Entries(contents)) == 0
  {
    var es := Entries(contents);
    LocateOk(which, m, contents);
    EntriesAreFields(contents);
    if CandidateCount(which, es) == 1 {
      var k := CandidateIndex(which, es);
      ScanOneCandidate(which, m, es, 1, 1, k);
    }
  }

  /** With exactly one candidate, `findOS` returns its two fields. */
  lemma LocateUnique(which: string, m: string, contents: string, k: nat)
    requires AllWellFormed(Entries(contents)) && CandidateCount(which, Entries(contents)) == 1
    requires k < |Entries(contents)| && Candidate(which, Entries(contents)[k])
    ensures Locate(which, m, contents) == Ok((Entries(contents)[k][0], Entries(contents)[k][1]))
  {
    EntriesAreFields(contents);
    ScanOneCandidate(which, m, Entries(contents), 1, 1, k);
  }

  /** A second candidate, `.zip` files aside, is an error. */
  lemma LocateTwoCandidates(which: string, m: string, contents: string)
    requires CandidateCount(which, Entries(contents)) >= 2
    ensures Locate(which, m, contents).Err?
  {
    LocateOk(which, m, contents);
  }

  /** An error for a line names the first line without two fields. */
  lemma LocateErrorLine(which: string, m: string, contents: string, n: nat)
    requires Locate(which, m, contents) == Err(InvalidLine(m, n))
    ensures 1 <= n <= |Entries(contents)|
    ensures !WellFormed(Entries(contents)[n - 1])
    ensures forall k :: 0 <= k < n - 1 ==> WellFormed(Entries(contents)[k])
  {
    ScanErrorLine(which, m, Entries(contents), 1, "", "", n);
  }

  /** A final fragment without a newline is never read. */
  lemma {:induction false} LocateIgnoresFragment(which: string, m: string, ls: seq<string>, u: string)
    requires forall i :: 0 <= i < |ls| ==> IsLine(ls[i])
    requires '\n' !in u
    ensures Locate(which, m, Concat(ls) + u) == Locate(which, m, Concat(ls))
  {
    EntriesIgnoreFragment(ls, u);
  }

  lemma {:induction false} EntriesIgnoreFragment(ls: seq<string>, u: string)
    requires forall i :: 0 <= i < |ls| ==> IsLine(ls[i])
    requires '\n' !in u
    ensures Entries(Concat(ls) + u) == Entries(Concat(ls))
  {
    if ls == [] {
      LineEndSpec(u);
      assert Concat(ls) + u == u;
    } else {
      var l, t := ls[0], Concat(ls[1..]);
      EntriesIgnoreFragment(ls[1..], u);
      Regroup(l, t, u);
      LineEndOfLine(l, t + u);
      LineEndOfLine(l, t);
      assert (l + (t + u))[..|l|] == l && (l + (t + u))[|l|..] == t + u;
      assert (l + t)[..|l|] == l && (l + t)[|l|..] == t;
    }
  }

  /** As written, `findOS` differs from `Locate` only in the line number of an error,
      which is always 1. */
  lemma AsWrittenIsRenumbered(which: string, m: string, contents: string)
    ensures FindOSAsWritten(which, m, contents) == Renumber(Locate(which, m, contents), 1)
  {
    ScanStuckCounter(which, m, Entries(contents), 1, 1, "", "");
  }

  /** A manifest whose second line is malformed: as written the error says line 1. */
  lemma AsWrittenReportsLineOne(which: string, m: string, good: string, bad: string)
    requires IsLine(good) && IsLine(bad)
    requires WellFormed(LineFields(good)) && !Candidate(which, LineFields(good))
    requires !WellFormed(LineFields(bad))
    ensures Locate(which, m, good + bad) == Err(InvalidLine(m, 2))
    ensures FindOSAsWritten(which, m, good + bad) == Err(InvalidLine(m, 1))
  {
    TwoEntries(good, bad);
    var es := [LineFields(good), LineFields(bad)];
    assert es[1..] == [LineFields(bad)];
    assert Scan(which, m, es[1..], 2, 1, "", "") == Err(InvalidLine(m, 2));
    AsWrittenIsRenumbered(which, m, good + bad);
  }

  lemma TwoEntries(a: string, b: string)
    requires IsLine(a) && IsLine(b)
    ensures Entries(a + b) == [LineFields(a), LineFields(b)]
  {
    var ab := a + b;
    LineEndOfLine(a, b);
    assert ab[..|a|] == a && ab[|a|..] == b;
    EntriesRead(ab);
    OneEntry(b);
  }

  lemma OneEntry(b: string)
    requires IsLine(b)
    ensures Entries(b) == [LineFields(b)]
  {
    LineEndOfLine(b, "");
    assert b + "" == b;
    assert b[..|b|] == b;
    assert Entries(b[|b|..]) == [];
  }

  /** The line of a digest and a filename. */
  lemma FieldsOfLine(digest: string, f: string)
    requires digest != "" && NoSpace(digest) && f != "" && NoSpace(f)
    ensures LineFields(digest + " " + f + "\n") == [digest, f]
  {
    var p := digest + " " + f;
    assert NotSpace(digest[0]) && NotSpace(f[|f| - 1]);
    assert p[0] == digest[0] && p[|p| - 1] == f[|f| - 1];
    TrimNewline(p);
    FieldsOfPair(digest, f);
  }

  /** A line of one field. */
  lemma FieldsOfWordLine(w: string)
    requires w != "" && NoSpace(w)
    ensures LineFields(w + "\n") == [w]
  {
    assert NotSpace(w[0]) && NotSpace(w[|w| - 1]);
    TrimNewline(w);
    FieldsOfWord(w, "");
    assert w + "" == w;
  }

  /** `d f\nx\n` is such a manifest for the tuple `linux-amd64`. */
  lemma AsWrittenExample()
    ensures Locate("linux-amd64", "m", "d f\nx\n") == Err(InvalidLine("m", 2))
    ensures FindOSAsWritten("linux-amd64", "m", "d f\nx\n") == Err(InvalidLine("m", 1))
  {
    ExampleGoodLine();
    ExampleBadLine();
    ExampleConcat();
    AsWrittenReportsLineOne("linux-amd64", "m", "d f\n", "x\n");
  }

  lemma ExampleConcat()
    ensures "d f\n" + "x\n" == "d f\nx\n"
  {
  }

  lemma ExampleGoodLine()
    ensures IsLine("d f\n") && LineFields("d f\n") == ["d", "f"]
    ensures !Candidate("linux-amd64", ["d", "f"])
  {
    GoodLineFields();
    NotContainsLonger("f", "linux-amd64-");
  }

  lemma GoodLineFields()
    ensures IsLine("d f\n") && LineFields("d f\n") == ["d", "f"]
  {
    ExampleWords();
    FieldsOfLine("d", "f");
    ExampleLine();
  }

  lemma ExampleWords()
    ensures NoSpace("d") && NoSpace("f")
  {
    assert "d"[0] == 'd' && "f"[0] == 'f';
  }

  lemma ExampleLine()
    ensures "d" + " " + "f" + "\n" == "d f\n" && IsLine("d f\n")
  {
    assert "d f\n"[..3] == "d f";
  }

  lemma ExampleBadLine()
    ensures IsLine("x\n") && LineFields("x\n") == ["x"]
  {
    FieldsOfWordLine("x");
    assert "x" + "\n" == "x\n";
  }

  /** A `linux-arm64` package name. */
  const Arm64Package: string := "decred-linux-arm64-v1.5.0.tar.gz"

  /** The dash keeps a `linux-arm` install from selecting a `linux-arm64` package. */
  lemma ArmIsNotArm64(digest: string)
    requires digest != "" && NoSpace(digest)
    ensures !Candidate("linux-arm", LineFields(digest + " " + Arm64Package + "\n"))
  {
    Arm64PackageIsField();
    FieldsOfLine(digest, Arm64Package);
    NoArmDash();
  }

  lemma Arm64PackageIsField()
    ensures Arm64Package != "" && NoSpace(Arm64Package)
  {
    var f := Arm64Package;
    forall j | 0 <= j < |f| ensures NotSpace(f[j]) {
      assert f[j] != ' ' && f[j] != '\t' && f[j] != '\n';
    }
  }

  lemma NoArmDash()
    ensures !Contains(Arm64Package, "linux-arm-")
  {
    var f := Arm64Package;
    assert forall i :: 0 <= i < |f| && f[i] == 'l' ==> i == 7;
    assert f[7..][9] == '6';
    NotContainsFirstChar(f, "linux-arm-", 7);
  }
}

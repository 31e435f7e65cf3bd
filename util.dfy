/** cmd/dcrinstall/util.go: the prompt decisions `answer` and `yes`, and the pure parts
    of `ctx.extract` (which extractor runs, and how the version is printed). The
    `extractSemVer` of this file is the same text as the one in semver.go and is
    modelled once, by `SemVer.ExtractSemVer`. */
module Util {
  import opened GoStrings
  import GoPath
  import SemVer

  /** `answer(def)` on the text `input` waiting on standard input: one line is read
      (a read error is ignored and whatever was read is used) and trimmed; an empty
      answer picks the default. */
  function Answer(input: string, def: string): (r: string)
    ensures r == def || (r != "" && |r| <= |FirstLine(input)|)
    ensures r != def ==> !IsSpace(r[0]) && !IsSpace(r[|r| - 1])
    ensures AllSpace(FirstLine(input)) ==> r == def
    ensures !AllSpace(FirstLine(input)) ==>
      var l := FirstLine(input);
      && r != ""
      && !IsSpace(r[0]) && !IsSpace(r[|r| - 1])
      && SpacedAt(l, r, LeadingSpaces(l))
  {
    var l := FirstLine(input);
    var a := TrimSpace(l);
    assert a == "" <==> AllSpace(l);
    if |a| == 0 then def else a
  }

  /** `yes()`: the upper-cased, trimmed line starts with `Y`. */
  predicate Yes(input: string) {
    var a := ToUpper(TrimSpace(FirstLine(input)));
    |a| > 0 && a[0] == 'Y'
  }

  /** The answer a user types, with the surrounding blanks and the newline, is taken
      as typed. */
  lemma AnswerOfTyped(a: string, rest: string, def: string)
    requires a != "" && '\n' !in a && !IsSpace(a[0]) && !IsSpace(a[|a| - 1])
    ensures Answer(a + "\n" + rest, def) == a
  {
    var l := a + "\n";
    assert IsLine(l) by { assert l[..|l| - 1] == a; }
    LineEndOfLine(l, rest);
    assert (l + rest)[..|l|] == l;
    assert a + "\n" + rest == l + rest;
    TrimNewline(a);
  }

  /** An empty line, or nothing at all, picks the default. */
  lemma AnswerOfEmpty(rest: string, def: string)
    ensures Answer("\n" + rest, def) == def
    ensures Answer("", def) == def
  {
    LineEndOfLine("\n", rest);
    assert ("\n" + rest)[..1] == "\n";
  }

  /** `yes` accepts exactly the answers whose first non-blank character is `y` or `Y`. */
  lemma YesIff(input: string)
    ensures Yes(input) <==>
      var t := TrimSpace(FirstLine(input)); t != "" && (t[0] == 'y' || t[0] == 'Y')
  {
    UpperY(TrimSpace(FirstLine(input)));
  }

  /** Upper-casing turns exactly `y` and `Y` into `Y`. */
  lemma UpperY(t: string)
    ensures (|ToUpper(t)| > 0 && ToUpper(t)[0] == 'Y') <==> t != "" && (t[0] == 'y' || t[0] == 'Y')
  {
    if t != "" {
      assert ToUpper(t)[0] == UpperChar(t[0]);
    }
  }

  /** The extractor `ctx.extract` runs for a package. */
  datatype Archive = Zip | Gzip

  function ArchiveOf(filename: string): (r: Archive)
    ensures r == Zip <==> |filename| >= 4 && filename[|filename| - 4..] == ".zip"
  {
    ExtZip(filename);
    if GoPath.Ext(filename) == ".zip" then Zip else Gzip
  }

  /** The extension is `.zip` exactly when the name ends in `.zip`. */
  lemma ExtZip(f: string)
    ensures GoPath.Ext(f) == ".zip" <==> |f| >= 4 && f[|f| - 4..] == ".zip"
  {
    if GoPath.Ext(f) == ".zip" {
      assert |GoPath.Ext(f)| == 4;
    }
    if |f| >= 4 && f[|f| - 4..] == ".zip" {
      var p := f[..|f| - 4];
      assert f == p + ".zip";
      ExtOfZip(p);
    }
  }

  lemma ExtOfZip(p: string)
    ensures GoPath.Ext(p + ".zip") == ".zip"
  {
    assert p + ".zip" == p + "." + "zip";
    GoPath.ExtOfSuffix(p, "zip");
  }

  /** The version `ctx.extract` prints: `v<major>.<minor>.<patch>`, followed by
      `-<pre-release>` when there is one; the same text as `semVerInfo.String`. */
  function VersionString(v: SemVer.SemVerInfo): (r: string)
    ensures r == SemVer.String(v)
    ensures '-' in r <==> v.preRelease != ""
  {
    SemVer.StringHasDash(v);
    var version := "v" + FormatUint(v.major as int) + "." + FormatUint(v.minor as int) + "."
      + FormatUint(v.patch as int);
    if v.preRelease != "" then version + "-" + v.preRelease else version
  }
}

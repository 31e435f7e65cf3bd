/** cmd/dcrinstall/semver.go: peeling a semantic version out of a file name or a
    `--version` line, and printing it back. */
module SemVer {
  import opened Wrappers
  import opened GoStrings
  import RelRE

  newtype uint32 = x: int | 0 <= x < 0x1_0000_0000

  /** The largest value `strconv.ParseInt(_, 10, 32)` accepts. */
  const MaxInt32: int := 0x7fff_ffff

  datatype SemVerInfo = SemVerInfo(major: uint32, minor: uint32, patch: uint32,
                                   preRelease: string, build: string)

  datatype Error =
    | NotSemVer(input: string)   // the input has no match of the release pattern
    | OutOfRange(number: string) // strconv.ErrRange for this numeral

  /** A numeral `strconv.ParseInt(d, 10, 32)` accepts. */
  predicate InRange(d: string) { AllDigits(d) && DigitsValue(d) <= MaxInt32 }

  /** `strconv.ParseInt(d, 10, 32)` on a numeral the pattern captured, converted to
      `uint32`; the conversion cannot wrap, since the value is at most `MaxInt32`. */
  function ParseInt32(d: string): (r: Result<uint32, Error>)
    requires AllDigits(d)
    ensures r.Ok? <==> InRange(d)
    ensures r.Ok? ==> r.value as int == DigitsValue(d)
    ensures r.Err? ==> r.error == OutOfRange(d)
  {
    if DigitsValue(d) <= MaxInt32 then Ok(DigitsValue(d) as uint32) else Err(OutOfRange(d))
  }

  /** `extractSemVer`: the first match of the release pattern, its three numbers parsed
      as 32-bit integers, group 6 as the pre-release and group 9 as the build. */
  function ExtractSemVer(s: string): (r: Result<SemVerInfo, Error>)
    ensures r == Err(NotSemVer(s)) <==> RelRE.CoreNowhere(s)
    ensures r.Err? && r.error.OutOfRange? ==> !InRange(r.error.number)
    ensures r.Ok? ==> RelRE.FindSubmatch(s).Some? && Renders(r.value, RelRE.FindSubmatch(s).value)
  {
    RelRE.FindSubmatchNoneIff(s);
    var m := RelRE.FindSubmatch(s);
    if m.None? then Err(NotSemVer(s))
    else
      RelRE.FindSubmatchWellFormed(s);
      var c := m.value;
      var major :- ParseInt32(c.major);
      var minor :- ParseInt32(c.minor);
      var patch :- ParseInt32(c.patch);
      DigitsValueBound(c.major);
      DigitsValueBound(c.minor);
      DigitsValueBound(c.patch);
      Ok(SemVerInfo(major, minor, patch, c.pre, c.build))
  }

  /** `v` carries exactly the captured text: each number prints back as its numeral
      and fits in 32 bits signed, and the pre-release and build are the groups. */
  predicate Renders(v: SemVerInfo, c: RelRE.Captures) {
    && v.major as int <= MaxInt32 && v.minor as int <= MaxInt32 && v.patch as int <= MaxInt32
    && FormatUint(v.major as int) == c.major
    && FormatUint(v.minor as int) == c.minor
    && FormatUint(v.patch as int) == c.patch
    && v.preRelease == c.pre && v.build == c.build
    && RelRE.WellFormed(c)
  }

  lemma DigitsValueBound(d: string)
    requires Canonical(d)
    ensures FormatUint(DigitsValue(d)) == d
  {
    FormatOfDigitsValue(d);
  }

  /** `semVerInfo.String`. */
  function String(v: SemVerInfo): string {
    "v" + FormatUint(v.major as int) + "." + FormatUint(v.minor as int) + "."
      + FormatUint(v.patch as int) + (if v.preRelease != "" then "-" + v.preRelease else "")
  }

  // ---------------------------------------------------------------------------
  // Properties
  // ---------------------------------------------------------------------------

  /** Any number above `MaxInt32` in the first match makes the extraction fail. */
  lemma OutOfRangeFails(s: string)
    requires RelRE.FindSubmatch(s).Some?
    requires var c := RelRE.FindSubmatch(s).value;
      !InRange(c.major) || !InRange(c.minor) || !InRange(c.patch)
    ensures ExtractSemVer(s).Err? && ExtractSemVer(s).error.OutOfRange?
  {
    RelRE.FindSubmatchNoneIff(s);
  }

  /** Every successful extraction has a single pre-release identifier, so no dot, and a
      build that is empty or starts with `+`. */
  lemma ExtractShape(s: string)
    requires ExtractSemVer(s).Ok?
    ensures var v := ExtractSemVer(s).value;
      '.' !in v.preRelease && (v.build == "" || v.build[0] == '+')
  {
    var v := ExtractSemVer(s).value;
    if v.preRelease != "" {
      RelRE.IdentNoDot(v.preRelease);
    }
  }

  /** The build never reaches the printed form. */
  lemma StringIgnoresBuild(v: SemVerInfo, b: string)
    ensures String(v.(build := b)) == String(v)
  {
  }

  /** A `-` appears in the printed form exactly when there is a pre-release. */
  lemma StringHasDash(v: SemVerInfo)
    ensures '-' in String(v) <==> v.preRelease != ""
  {
    var s := String(v);
    var nums := "v" + FormatUint(v.major as int) + "." + FormatUint(v.minor as int) + "."
      + FormatUint(v.patch as int);
    if v.preRelease != "" {
      assert s[|nums|] == '-';
    } else {
      assert s == nums;
      DashFree(FormatUint(v.major as int));
      DashFree(FormatUint(v.minor as int));
      DashFree(FormatUint(v.patch as int));
    }
  }

  lemma DashFree(d: string)
    requires AllDigits(d)
    ensures '-' !in d
  {
  }

  /** The extraction from a known first match whose numbers fit. */
  lemma ExtractOfMatch(s: string, c: RelRE.Captures)
    requires RelRE.FindSubmatch(s) == Some(c)
    requires InRange(c.major) && InRange(c.minor) && InRange(c.patch)
    ensures ExtractSemVer(s) == Ok(SemVerInfo(DigitsValue(c.major) as uint32,
      DigitsValue(c.minor) as uint32, DigitsValue(c.patch) as uint32, c.pre, c.build))
  {
  }

  /** The printed form is found by its `v` prefix at position 0. */
  lemma FindSubmatchOfString(v: SemVerInfo)
    requires v.preRelease == "" || RelRE.IsIdent(v.preRelease)
    ensures RelRE.FindSubmatch(String(v)) == Some(RelRE.Captures(FormatUint(v.major as int),
      FormatUint(v.minor as int), FormatUint(v.patch as int), v.preRelease, ""))
  {
    var x, y, z := FormatUint(v.major as int), FormatUint(v.minor as int), FormatUint(v.patch as int);
    FormatUintCanonical(v.major as int);
    FormatUintCanonical(v.minor as int);
    FormatUintCanonical(v.patch as int);
    var tail := if v.preRelease == "" then "" else "-" + v.preRelease;
    assert String(v) == "v" + x + "." + y + "." + z + tail;
    RelRE.FindSubmatchOfPrinted(x, y, z, v.preRelease);
  }

  /** Printing and extracting again gives the version back, less its build, when the
      numbers fit in 32 bits signed and the pre-release is one identifier. */
  lemma RoundTrip(v: SemVerInfo)
    requires v.major as int <= MaxInt32 && v.minor as int <= MaxInt32 && v.patch as int <= MaxInt32
    requires v.preRelease == "" || RelRE.IsIdent(v.preRelease)
    ensures ExtractSemVer(String(v)) == Ok(v.(build := ""))
  {
    FindSubmatchOfString(v);
    DigitsValueOfFormat(v.major as int);
    DigitsValueOfFormat(v.minor as int);
    DigitsValueOfFormat(v.patch as int);
    ExtractOfMatch(String(v), RelRE.Captures(FormatUint(v.major as int),
      FormatUint(v.minor as int), FormatUint(v.patch as int), v.preRelease, ""));
  }

  /** Leftmost-first matching takes a lone `0` as the patch number: "1.2.03" is
      version 1.2.0. */
  lemma LeadingZeroPatch()
    ensures ExtractSemVer("1.2.03") == Ok(SemVerInfo(1, 2, 0, "", ""))
  {
    LeadingZeroMatch();
    assert DigitsValue("1") == 1 && DigitsValue("2") == 2 && DigitsValue("0") == 0;
    ExtractOfMatch("1.2.03", RelRE.Captures("1", "2", "0", "", ""));
  }

  lemma LeadingZeroMatch()
    ensures RelRE.FindSubmatch("1.2.03") == Some(RelRE.Captures("1", "2", "0", "", ""))
  {
    var t := "1.2.03";
    assert RelRE.CanonicalIn(t, 0, 1) && RelRE.CanonicalIn(t, 2, 3) && RelRE.CanonicalIn(t, 4, 5);
    RelRE.CoreAtOfSplit(t, 0, 1, 3, 5);
    assert RelRE.BuildEnd(t, 5) == 5 && t[5..5] == "";
    assert t[0..1] == "1" && t[2..3] == "2" && t[4..5] == "0";
    RelRE.FindAtStart(t);
  }

  /** Only the first pre-release identifier is kept; the build keeps its `+`. */
  lemma FirstIdentifierOnly()
    ensures ExtractSemVer("v1.6.0-rc1.2+b7") == Ok(SemVerInfo(1, 6, 0, "rc1", "+b7"))
  {
    FirstIdentifierMatch();
    assert DigitsValue("1") == 1 && DigitsValue("6") == 6 && DigitsValue("0") == 0;
    ExtractOfMatch("v1.6.0-rc1.2+b7", RelRE.Captures("1", "6", "0", "rc1", "+b7"));
  }

  lemma FirstIdentifierMatch()
    ensures RelRE.FindSubmatch("v1.6.0-rc1.2+b7") == Some(RelRE.Captures("1", "6", "0", "rc1", "+b7"))
  {
    var t := "v1.6.0-rc1.2+b7";
    assert t[1..2] == "1" && t[3..4] == "6" && t[5..6] == "0";
    assert RelRE.CanonicalIn(t, 1, 2) && RelRE.CanonicalIn(t, 3, 4) && RelRE.CanonicalIn(t, 5, 6);
    RelRE.CoreAtOfSplit(t, 1, 2, 4, 6);
    FirstIdentifierTail();
    assert RelRE.CoreAt(t, 1) == Some(RelRE.Captures("1", "6", "0", "rc1", "+b7"));
    RelRE.FindAfterV(t);
  }

  lemma FirstIdentifierTail()
    ensures RelRE.TailAt("v1.6.0-rc1.2+b7", 6) == ("rc1", "+b7")
  {
    var t := "v1.6.0-rc1.2+b7";
    assert RelRE.AlnumIn(t, 8, 10) && RelRE.AlnumIn(t, 13, 15);
    RelRE.AlnumEndOf(t, 8, 10);
    RelRE.AlnumEndOf(t, 13, 15);
    assert RelRE.IdentEnd(t, 7) == 10;
    assert RelRE.IdentEnd(t, 11) == 12;
    assert RelRE.DotIdentsEnd(t, 10) == 12;
    assert RelRE.BuildEnd(t, 12) == 15;
    assert t[7..10] == "rc1" && t[12..15] == "+b7";
  }
}

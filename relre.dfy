/** The release pattern shared by both generations,

      (v|release-v)?(0|[1-9]\d*)\.(0|[1-9]\d*)\.(0|[1-9]\d*)
      (-(0|[1-9]\d*|\d*[a-zA-Z-][0-9a-zA-Z-]*)(\.(0|[1-9]\d*|\d*[a-zA-Z-][0-9a-zA-Z-]*))*)?
      (\+[0-9a-zA-Z-]+(\.[0-9a-zA-Z-]+)*)?

    (one line in the program), written as an explicit scanner. Go's `regexp` reports the
    leftmost match and, among the matches starting there, the one a backtracking matcher
    finds first: alternatives in the order written, greedy repetition. Each scanner
    below takes the input and a position and returns where its group ends on that first
    path; ending where it started stands for "the group does not match". */
module RelRE {
  import opened Wrappers
  import opened GoStrings

  predicate IsLetterHyphen(c: char) { ('a' <= c <= 'z') || ('A' <= c <= 'Z') || c == '-' }

  predicate IsAlnumHyphen(c: char) { IsDigit(c) || IsLetterHyphen(c) }

  predicate AllAlnumHyphen(s: string) { forall i :: 0 <= i < |s| ==> IsAlnumHyphen(s[i]) }

  /** A pre-release identifier as the scanner takes it whole: a canonical number, or a
      letter or hyphen followed by letters, digits and hyphens. */
  predicate IsIdent(p: string) {
    Canonical(p) || (p != "" && IsLetterHyphen(p[0]) && AllAlnumHyphen(p))
  }

  // ---------------------------------------------------------------------------
  // The same shapes, on a range t[lo..hi] of the input
  // ---------------------------------------------------------------------------

  predicate DigitsIn(t: string, lo: nat, hi: nat)
    requires lo <= hi <= |t|
  {
    forall q :: lo <= q < hi ==> IsDigit(t[q])
  }

  predicate AlnumIn(t: string, lo: nat, hi: nat)
    requires lo <= hi <= |t|
  {
    forall q :: lo <= q < hi ==> IsAlnumHyphen(t[q])
  }

  predicate CanonicalIn(t: string, lo: nat, hi: nat)
    requires lo <= hi <= |t|
  {
    lo < hi && DigitsIn(t, lo, hi) && (t[lo] == '0' ==> hi == lo + 1)
  }

  predicate IdentIn(t: string, lo: nat, hi: nat)
    requires lo <= hi <= |t|
  {
    CanonicalIn(t, lo, hi) || (lo < hi && IsLetterHyphen(t[lo]) && AlnumIn(t, lo, hi))
  }

  lemma CanonicalSlice(t: string, lo: nat, hi: nat)
    requires lo <= hi <= |t|
    ensures CanonicalIn(t, lo, hi) <==> Canonical(t[lo..hi])
  {
    assert forall q :: lo <= q < hi ==> t[lo..hi][q - lo] == t[q];
  }

  lemma IdentSlice(t: string, lo: nat, hi: nat)
    requires lo <= hi <= |t|
    ensures IdentIn(t, lo, hi) <==> IsIdent(t[lo..hi])
  {
    CanonicalSlice(t, lo, hi);
    assert forall q :: lo <= q < hi ==> t[lo..hi][q - lo] == t[q];
  }

  /** An identifier holds no dot. */
  lemma IdentNoDot(p: string)
    requires IsIdent(p)
    ensures '.' !in p
  {
    assert forall i :: 0 <= i < |p| ==> p[i] != '.';
  }

  // ---------------------------------------------------------------------------
  // Scanners
  // ---------------------------------------------------------------------------

  /** `\d*`, greedy. */
  function DigitEnd(t: string, p: nat): (e: nat)
    requires p <= |t|
    ensures p <= e <= |t|
    decreases |t| - p
  {
    if p < |t| && IsDigit(t[p]) then DigitEnd(t, p + 1) else p
  }

  lemma {:induction false} DigitEndSpec(t: string, p: nat)
    requires p <= |t|
    ensures var e := DigitEnd(t, p); DigitsIn(t, p, e) && (e == |t| || !IsDigit(t[e]))
    decreases |t| - p
  {
    if p < |t| && IsDigit(t[p]) {
      DigitEndSpec(t, p + 1);
    }
  }

  lemma {:induction false} DigitEndOf(t: string, p: nat, e: nat)
    requires p <= e <= |t| && DigitsIn(t, p, e) && (e == |t| || !IsDigit(t[e]))
    ensures DigitEnd(t, p) == e
    decreases e - p
  {
    if p < e {
      DigitEndOf(t, p + 1, e);
    }
  }

  /** `[0-9a-zA-Z-]*`, greedy. */
  function AlnumEnd(t: string, p: nat): (e: nat)
    requires p <= |t|
    ensures p <= e <= |t|
    decreases |t| - p
  {
    if p < |t| && IsAlnumHyphen(t[p]) then AlnumEnd(t, p + 1) else p
  }

  lemma {:induction false} AlnumEndSpec(t: string, p: nat)
    requires p <= |t|
    ensures var e := AlnumEnd(t, p); AlnumIn(t, p, e) && (e == |t| || !IsAlnumHyphen(t[e]))
    decreases |t| - p
  {
    if p < |t| && IsAlnumHyphen(t[p]) {
      AlnumEndSpec(t, p + 1);
    }
  }

  lemma {:induction false} AlnumEndOf(t: string, p: nat, e: nat)
    requires p <= e <= |t| && AlnumIn(t, p, e) && (e == |t| || !IsAlnumHyphen(t[e]))
    ensures AlnumEnd(t, p) == e
    decreases e - p
  {
    if p < e {
      AlnumEndOf(t, p + 1, e);
    }
  }

  /** `(0|[1-9]\d*)`: a lone `0` is taken before anything else is tried. */
  function NumEnd(t: string, p: nat): (e: nat)
    requires p <= |t|
    ensures p <= e <= |t|
    ensures e == p <==> (p == |t| || !IsDigit(t[p]))
  {
    if p == |t| then p
    else if t[p] == '0' then p + 1
    else if '1' <= t[p] <= '9' then DigitEnd(t, p + 1)
    else p
  }

  /** The number taken is canonical, and unless it is a lone `0` no digit follows. */
  lemma NumEndSpec(t: string, p: nat)
    requires p <= |t|
    ensures var e := NumEnd(t, p); e > p ==> CanonicalIn(t, p, e)
    ensures var e := NumEnd(t, p); e > p && t[p] != '0' ==> e == |t| || !IsDigit(t[e])
  {
    if p < |t| && '1' <= t[p] <= '9' {
      DigitEndSpec(t, p + 1);
    }
  }

  /** A canonical number that is not followed by a digit, or is a lone `0`, is what
      `NumEnd` takes. */
  lemma NumEndOf(t: string, p: nat, e: nat)
    requires p <= e <= |t| && CanonicalIn(t, p, e)
    requires e == |t| || !IsDigit(t[e]) || t[p] == '0'
    ensures NumEnd(t, p) == e
  {
    if t[p] != '0' {
      DigitEndOf(t, p + 1, e);
    }
  }

  /** `(0|[1-9]\d*|\d*[a-zA-Z-][0-9a-zA-Z-]*)`. After a leading digit one of the first
      two alternatives always succeeds, so the third only ever starts at a letter or
      hyphen, where `\d*` is empty. */
  function IdentEnd(t: string, p: nat): (e: nat)
    requires p <= |t|
    ensures p <= e <= |t|
    ensures e == p <==> (p == |t| || !IsAlnumHyphen(t[p]))
  {
    if p == |t| then p
    else if IsDigit(t[p]) then NumEnd(t, p)
    else if IsLetterHyphen(t[p]) then AlnumEnd(t, p + 1)
    else p
  }

  lemma IdentEndSpec(t: string, p: nat)
    requires p <= |t|
    ensures var e := IdentEnd(t, p); e > p ==> IdentIn(t, p, e)
  {
    if p < |t| {
      if IsDigit(t[p]) {
        NumEndSpec(t, p);
      } else if IsLetterHyphen(t[p]) {
        AlnumEndSpec(t, p + 1);
      }
    }
  }

  /** An identifier followed by the end or by a character outside the identifier
      alphabet is taken whole. */
  lemma IdentEndOf(t: string, p: nat, e: nat)
    requires p <= e <= |t| && IdentIn(t, p, e)
    requires e == |t| || !IsAlnumHyphen(t[e])
    ensures IdentEnd(t, p) == e
  {
    if CanonicalIn(t, p, e) {
      NumEndOf(t, p, e);
    } else {
      AlnumEndOf(t, p + 1, e);
    }
  }

  /** `(\.ID)*`, greedy. */
  function DotIdentsEnd(t: string, p: nat): (e: nat)
    requires p <= |t|
    ensures p <= e <= |t|
    decreases |t| - p
  {
    if p < |t| && t[p] == '.' && IdentEnd(t, p + 1) > p + 1 then DotIdentsEnd(t, IdentEnd(t, p + 1))
    else p
  }

  /** `(\.[0-9a-zA-Z-]+)*`, greedy. */
  function DotAlnumsEnd(t: string, p: nat): (e: nat)
    requires p <= |t|
    ensures p <= e <= |t|
    decreases |t| - p
  {
    if p < |t| && t[p] == '.' && AlnumEnd(t, p + 1) > p + 1 then DotAlnumsEnd(t, AlnumEnd(t, p + 1))
    else p
  }

  /** `(\+[0-9a-zA-Z-]+(\.[0-9a-zA-Z-]+)*)?`. */
  function BuildEnd(t: string, p: nat): (e: nat)
    requires p <= |t|
    ensures p <= e <= |t|
    ensures e > p ==> t[p] == '+'
  {
    if p < |t| && t[p] == '+' && AlnumEnd(t, p + 1) > p + 1 then DotAlnumsEnd(t, AlnumEnd(t, p + 1))
    else p
  }

  /** `(0|[1-9]\d*)\.`: where the number ends, or `p` when the number or its dot is
      missing. Backtracking cannot help, since a shorter run of digits is followed by a
      digit and not by the dot. */
  function NumDotEnd(t: string, p: nat): (e: nat)
    requires p <= |t|
    ensures p <= e <= |t|
    ensures e > p ==> e < |t| && t[e] == '.'
  {
    var e := NumEnd(t, p);
    if e > p && e < |t| && t[e] == '.' then e else p
  }

  // ---------------------------------------------------------------------------
  // Submatches
  // ---------------------------------------------------------------------------

  /** The submatches the program reads: groups 2, 3 and 4 (the numbers), group 6 (the
      first pre-release identifier) and group 9 (the build, with its `+`). An
      unmatched group is "". */
  datatype Captures = Captures(major: string, minor: string, patch: string, pre: string, build: string)

  predicate WellFormed(c: Captures) {
    && Canonical(c.major) && Canonical(c.minor) && Canonical(c.patch)
    && (c.pre == "" || IsIdent(c.pre))
    && (c.build == "" || c.build[0] == '+')
  }

  /** Groups 6 and 9, read from where the patch number ends. */
  function TailAt(t: string, p: nat): (string, string)
    requires p <= |t|
  {
    if p < |t| && t[p] == '-' && IdentEnd(t, p + 1) > p + 1 then
      var q := IdentEnd(t, p + 1);
      var u := DotIdentsEnd(t, q);
      (t[p + 1..q], t[u..BuildEnd(t, u)])
    else ("", t[p..BuildEnd(t, p)])
  }

  lemma TailAtSpec(t: string, p: nat)
    requires p <= |t|
    ensures var r := TailAt(t, p); r.0 == "" || IsIdent(r.0)
    ensures var r := TailAt(t, p); r.1 == "" || r.1[0] == '+'
  {
    if p < |t| && t[p] == '-' && IdentEnd(t, p + 1) > p + 1 {
      IdentEndSpec(t, p + 1);
      IdentSlice(t, p + 1, IdentEnd(t, p + 1));
    }
  }

  /** Everything after the optional prefix, matched at position `p`. */
  function CoreAt(t: string, p: nat): Option<Captures>
    requires p <= |t|
  {
    var a := NumDotEnd(t, p);
    if a == p then None
    else
      var b := NumDotEnd(t, a + 1);
      if b == a + 1 then None
      else
        var c := NumEnd(t, b + 1);
        if c == b + 1 then None
        else
          var tail := TailAt(t, c);
          Some(Captures(t[p..a], t[a + 1..b], t[b + 1..c], tail.0, tail.1))
  }

  /** Every capture has the shape its group allows: numbers without leading zeros, a
      single pre-release identifier, a build that starts with its `+`. */
  lemma CoreAtWellFormed(t: string, p: nat)
    requires p <= |t|
    ensures CoreAt(t, p).Some? ==> WellFormed(CoreAt(t, p).value)
  {
    CoreAtNumbers(t, p);
    CoreAtTail(t, p);
  }

  /** What `CoreAt` computes, step by step. */
  lemma CoreAtShape(t: string, p: nat)
    requires p <= |t| && CoreAt(t, p).Some?
    ensures var a := NumDotEnd(t, p); var b := NumDotEnd(t, a + 1); var c := NumEnd(t, b + 1);
      && p < a && a + 1 < b && b + 1 < c
      && CoreAt(t, p) == Some(Captures(t[p..a], t[a + 1..b], t[b + 1..c], TailAt(t, c).0, TailAt(t, c).1))
  {
  }

  lemma CoreAtNumbers(t: string, p: nat)
    requires p <= |t|
    ensures var r := CoreAt(t, p);
      r.Some? ==> Canonical(r.value.major) && Canonical(r.value.minor) && Canonical(r.value.patch)
  {
    if CoreAt(t, p).Some? {
      CoreAtShape(t, p);
      var a := NumDotEnd(t, p);
      var b := NumDotEnd(t, a + 1);
      NumbersOfEnds(t, p, a, b, NumEnd(t, b + 1));
    }
  }

  lemma NumbersOfEnds(t: string, p: nat, a: nat, b: nat, c: nat)
    requires p < a && a + 1 < b && b + 1 < c <= |t|
    requires a == NumDotEnd(t, p) && b == NumDotEnd(t, a + 1) && c == NumEnd(t, b + 1)
    ensures Canonical(t[p..a]) && Canonical(t[a + 1..b]) && Canonical(t[b + 1..c])
  {
    NumDotCanonical(t, p);
    NumDotCanonical(t, a + 1);
    NumCanonical(t, b + 1);
  }

  lemma CoreAtTail(t: string, p: nat)
    requires p <= |t|
    ensures var r := CoreAt(t, p);
      r.Some? ==> (r.value.pre == "" || IsIdent(r.value.pre)) && (r.value.build == "" || r.value.build[0] == '+')
  {
    if CoreAt(t, p).Some? {
      CoreAtShape(t, p);
      var a := NumDotEnd(t, p);
      var b := NumDotEnd(t, a + 1);
      var c := NumEnd(t, b + 1);
      var tail := TailAt(t, c);
      assert CoreAt(t, p).value.pre == tail.0 && CoreAt(t, p).value.build == tail.1;
      TailAtSpec(t, c);
    }
  }

  lemma NumCanonical(t: string, p: nat)
    requires p <= |t|
    ensures var e := NumEnd(t, p); e > p ==> Canonical(t[p..e])
  {
    NumEndSpec(t, p);
    CanonicalSlice(t, p, NumEnd(t, p));
  }

  lemma NumDotCanonical(t: string, p: nat)
    requires p <= |t|
    ensures var e := NumDotEnd(t, p); e > p ==> Canonical(t[p..e])
  {
    NumCanonical(t, p);
  }

  /** A match at position `p`: the prefix alternatives in their written order, then no
      prefix. */
  function MatchAt(t: string, p: nat): Option<Captures>
    requires p <= |t|
  {
    if p < |t| && t[p] == 'v' && CoreAt(t, p + 1).Some? then CoreAt(t, p + 1)
    else if p + 9 <= |t| && t[p..p + 9] == "release-v" && CoreAt(t, p + 9).Some? then CoreAt(t, p + 9)
    else CoreAt(t, p)
  }

  /** The match at the leftmost position from `p` on that has one. */
  function FindFrom(t: string, p: nat): Option<Captures>
    requires p <= |t|
    decreases |t| - p
  {
    if MatchAt(t, p).Some? then MatchAt(t, p)
    else if p == |t| then None
    else FindFrom(t, p + 1)
  }

  /** `relRE.FindStringSubmatch(s)`. */
  function FindSubmatch(s: string): Option<Captures> {
    FindFrom(s, 0)
  }

  /** Reference definition: the core of the pattern at the first position from `p` on
      where it occurs, with no prefix at all. */
  function FirstCoreFrom(t: string, p: nat): Option<Captures>
    requires p <= |t|
    decreases |t| - p
  {
    if CoreAt(t, p).Some? then CoreAt(t, p)
    else if p == |t| then None
    else FirstCoreFrom(t, p + 1)
  }

  /** Skipping characters that are not digits does not change the first core. */
  lemma {:induction false} FirstCoreSkips(t: string, p: nat, m: nat)
    requires p <= m <= |t|
    requires forall q :: p <= q < m ==> !IsDigit(t[q])
    ensures FirstCoreFrom(t, p) == FirstCoreFrom(t, m)
    decreases m - p
  {
    if p < m {
      FirstCoreSkipsOne(t, p);
      FirstCoreSkips(t, p + 1, m);
    }
  }

  lemma FirstCoreSkipsOne(t: string, p: nat)
    requires p < |t| && !IsDigit(t[p])
    ensures FirstCoreFrom(t, p) == FirstCoreFrom(t, p + 1)
  {
    CoreAtNonDigit(t, p);
  }

  /** No core starts at a character that is not a digit. */
  lemma CoreAtNonDigit(t: string, p: nat)
    requires p < |t| && !IsDigit(t[p])
    ensures CoreAt(t, p).None?
  {
    assert NumDotEnd(t, p) == p;
  }

  /** The optional `v` / `release-v` group never changes what is captured: the leftmost
      match captures exactly the first core. */
  lemma {:induction false} FindFromIsFirstCore(t: string, p: nat)
    requires p <= |t|
    ensures FindFrom(t, p) == FirstCoreFrom(t, p)
    decreases |t| - p
  {
    if MatchAt(t, p).Some? {
      MatchIsFirstCore(t, p);
    } else if p < |t| {
      FindFromIsFirstCore(t, p + 1);
    }
  }

  lemma MatchIsFirstCore(t: string, p: nat)
    requires p <= |t| && MatchAt(t, p).Some?
    ensures FirstCoreFrom(t, p) == MatchAt(t, p)
  {
    if p < |t| && t[p] == 'v' && CoreAt(t, p + 1).Some? {
      FirstCoreSkips(t, p, p + 1);
    } else if p + 9 <= |t| && t[p..p + 9] == "release-v" && CoreAt(t, p + 9).Some? {
      ReleasePrefixSkips(t, p);
    }
  }

  lemma ReleasePrefixSkips(t: string, p: nat)
    requires p + 9 <= |t| && t[p..p + 9] == "release-v"
    ensures FirstCoreFrom(t, p) == FirstCoreFrom(t, p + 9)
  {
    assert forall q :: p <= q < p + 9 ==> t[q] == "release-v"[q - p];
    FirstCoreSkips(t, p, p + 9);
  }

  lemma FindSubmatchIsFirstCore(s: string)
    ensures FindSubmatch(s) == FirstCoreFrom(s, 0)
  {
    FindFromIsFirstCore(s, 0);
  }

  /** A `v` followed by the core is matched at position 0, through the prefix. */
  lemma FindAfterV(t: string)
    requires |t| > 0 && t[0] == 'v' && CoreAt(t, 1).Some?
    ensures FindSubmatch(t) == CoreAt(t, 1)
  {
  }

  /** The core at position 0 is the match when no prefix is there. */
  lemma FindAtStart(t: string)
    requires |t| > 0 && IsDigit(t[0]) && CoreAt(t, 0).Some?
    ensures FindSubmatch(t) == CoreAt(t, 0)
  {
  }

  /** Whatever the leftmost match captures has the shape its groups allow. */
  lemma {:induction false} FindFromWellFormed(t: string, p: nat)
    requires p <= |t|
    ensures FindFrom(t, p).Some? ==> WellFormed(FindFrom(t, p).value)
    decreases |t| - p
  {
    if p < |t| {
      CoreAtWellFormed(t, p + 1);
    }
    if p + 9 <= |t| {
      CoreAtWellFormed(t, p + 9);
    }
    CoreAtWellFormed(t, p);
    if MatchAt(t, p).None? && p < |t| {
      FindFromWellFormed(t, p + 1);
    }
  }

  lemma FindSubmatchWellFormed(s: string)
    ensures FindSubmatch(s).Some? ==> WellFormed(FindSubmatch(s).value)
  {
    FindFromWellFormed(s, 0);
  }

  // ---------------------------------------------------------------------------
  // An independent description of "the pattern occurs at position p"
  // ---------------------------------------------------------------------------

  /** Three canonical numbers separated by dots start at `p`. The optional groups of the
      pattern may all match empty, so this is exactly what any match needs. */
  predicate CoreSplit(t: string, p: nat, i: nat, j: nat, k: nat) {
    p < i < j < k <= |t| && t[i] == '.' && t[j] == '.'
    && CanonicalIn(t, p, i) && CanonicalIn(t, i + 1, j) && CanonicalIn(t, j + 1, k)
  }

  ghost predicate HasCore(t: string, p: nat) {
    exists i: nat, j: nat, k: nat :: CoreSplit(t, p, i, j, k)
  }

  /** Three canonical numbers and what follows them are read as the pattern says: the
      last number is taken whole unless it is a lone `0`, the rest goes to groups 6
      and 9. */
  lemma CoreAtOfSplit(t: string, p: nat, i: nat, j: nat, k: nat)
    requires CoreSplit(t, p, i, j, k)
    requires k == |t| || !IsDigit(t[k]) || t[j + 1] == '0'
    ensures CoreAt(t, p) == Some(Captures(t[p..i], t[i + 1..j], t[j + 1..k], TailAt(t, k).0, TailAt(t, k).1))
  {
    NumDotEndOf(t, p, i);
    NumDotEndOf(t, i + 1, j);
    NumEndOf(t, j + 1, k);
    CoreAtOfEnds(t, p, i, j, k);
  }

  lemma CoreAtOfEnds(t: string, p: nat, i: nat, j: nat, k: nat)
    requires p < i && i + 1 < j && j + 1 < k <= |t|
    requires NumDotEnd(t, p) == i && NumDotEnd(t, i + 1) == j && NumEnd(t, j + 1) == k
    ensures CoreAt(t, p) == Some(Captures(t[p..i], t[i + 1..j], t[j + 1..k], TailAt(t, k).0, TailAt(t, k).1))
  {
  }

  lemma NumDotEndOf(t: string, p: nat, i: nat)
    requires p <= i < |t| && CanonicalIn(t, p, i) && t[i] == '.'
    ensures NumDotEnd(t, p) == i
  {
    NumEndOf(t, p, i);
  }

  lemma CoreAtSound(t: string, p: nat)
    requires p <= |t| && CoreAt(t, p).Some?
    ensures HasCore(t, p)
  {
    CoreAtShape(t, p);
    var a := NumDotEnd(t, p);
    var b := NumDotEnd(t, a + 1);
    var c := NumEnd(t, b + 1);
    SplitOfEnds(t, p, a, b, c);
  }

  lemma SplitOfEnds(t: string, p: nat, a: nat, b: nat, c: nat)
    requires p < a && a + 1 < b && b + 1 < c <= |t|
    requires a == NumDotEnd(t, p) && b == NumDotEnd(t, a + 1) && c == NumEnd(t, b + 1)
    ensures CoreSplit(t, p, a, b, c) && HasCore(t, p)
  {
    NumDotSpec(t, p);
    NumDotSpec(t, a + 1);
    NumEndSpec(t, b + 1);
    assert CoreSplit(t, p, a, b, c);
  }

  lemma NumDotSpec(t: string, p: nat)
    requires p <= |t|
    ensures var e := NumDotEnd(t, p); e > p ==> CanonicalIn(t, p, e)
  {
    NumEndSpec(t, p);
  }

  lemma CoreAtComplete(t: string, p: nat)
    requires p <= |t| && HasCore(t, p)
    ensures CoreAt(t, p).Some?
  {
    var i: nat, j: nat, k: nat :| CoreSplit(t, p, i, j, k);
    NumEndOf(t, p, i);
    NumEndOf(t, i + 1, j);
    assert NumEnd(t, j + 1) > j + 1;
  }

  /** The core occurs at no position from `p` on. */
  ghost predicate CoreNowhereFrom(t: string, p: nat) {
    forall q: nat :: p <= q <= |t| ==> !HasCore(t, q)
  }

  /** No substring of `s` matches the pattern. */
  ghost predicate CoreNowhere(s: string) {
    CoreNowhereFrom(s, 0)
  }

  /** The first core from `p` on is missing exactly when the core occurs nowhere
      from `p` on. */
  lemma {:induction false} FirstCoreNoneIff(t: string, p: nat)
    requires p <= |t|
    ensures FirstCoreFrom(t, p).None? <==> CoreNowhereFrom(t, p)
    decreases |t| - p
  {
    CoreAtIff(t, p);
    if p == |t| {
      assert CoreNowhereFrom(t, p) <==> !HasCore(t, p);
    } else {
      FirstCoreNoneIff(t, p + 1);
      NowhereStep(t, p);
      if CoreAt(t, p).None? {
        assert FirstCoreFrom(t, p) == FirstCoreFrom(t, p + 1);
      }
    }
  }

  /** A core starts at `p` exactly when `CoreAt` finds one there. */
  lemma CoreAtIff(t: string, p: nat)
    requires p <= |t|
    ensures CoreAt(t, p).Some? <==> HasCore(t, p)
  {
    if CoreAt(t, p).Some? {
      CoreAtSound(t, p);
    }
    if HasCore(t, p) {
      CoreAtComplete(t, p);
    }
  }

  lemma NowhereStep(t: string, p: nat)
    requires p < |t|
    ensures CoreNowhereFrom(t, p) <==> !HasCore(t, p) && CoreNowhereFrom(t, p + 1)
  {
  }

  /** `relRE.FindStringSubmatch` finds nothing exactly when no substring of the input
      matches the pattern. */
  lemma FindSubmatchNoneIff(s: string)
    ensures FindSubmatch(s).None? <==> CoreNowhere(s)
  {
    FindSubmatchIsFirstCore(s);
    FirstCoreNoneIff(s, 0);
  }

  // ---------------------------------------------------------------------------
  // Reading back a printed version
  // ---------------------------------------------------------------------------

  /** A `v`, three canonical numbers and an optional identifier, as a version is
      printed, are read back exactly, with no build, by a match at position 0. */
  lemma FindSubmatchOfPrinted(x: string, y: string, z: string, pre: string)
    requires Canonical(x) && Canonical(y) && Canonical(z) && (pre == "" || IsIdent(pre))
    ensures FindSubmatch("v" + x + "." + y + "." + z + (if pre == "" then "" else "-" + pre))
      == Some(Captures(x, y, z, pre, ""))
  {
    var tail := if pre == "" then "" else "-" + pre;
    var t := "v" + x + "." + y + "." + z + tail;
    var k := 3 + |x| + |y| + |z|;
    PrintedParts(x, y, z, tail);
    if k < |t| {
      assert t[k] == tail[0] == '-';
    }
    CoreOfParts(t, x, y, z);
    TailOfPrinted(t, k, pre);
    FindAfterV(t);
  }

  /** Three canonical numbers at their places, separated by dots, and followed by the
      end or a `-`, are the core at position 1. */
  lemma CoreOfParts(t: string, x: string, y: string, z: string)
    requires Canonical(x) && Canonical(y) && Canonical(z)
    requires var i := 1 + |x|; var j := i + 1 + |y|; var k := j + 1 + |z|;
      && k <= |t| && t[i] == '.' && t[j] == '.'
      && t[1..i] == x && t[i + 1..j] == y && t[j + 1..k] == z && (k == |t| || t[k] == '-')
    ensures var k := 3 + |x| + |y| + |z|;
      CoreAt(t, 1) == Some(Captures(x, y, z, TailAt(t, k).0, TailAt(t, k).1))
  {
    var i := 1 + |x|;
    var j := i + 1 + |y|;
    var k := j + 1 + |z|;
    CanonicalSlice(t, 1, i);
    CanonicalSlice(t, i + 1, j);
    CanonicalSlice(t, j + 1, k);
    CoreAtOfSplit(t, 1, i, j, k);
  }

  /** Where each part of a printed version sits. */
  lemma PrintedParts(x: string, y: string, z: string, tail: string)
    ensures var t := "v" + x + "." + y + "." + z + tail;
      var i := 1 + |x|; var j := i + 1 + |y|; var k := j + 1 + |z|;
      && |t| == k + |tail| && t[0] == 'v' && t[i] == '.' && t[j] == '.'
      && t[1..i] == x && t[i + 1..j] == y && t[j + 1..k] == z && t[k..] == tail
  {
    var t := "v" + x + "." + y + "." + z + tail;
    var i := 1 + |x|;
    var j := i + 1 + |y|;
    var k := j + 1 + |z|;
    var w := "v" + x + "." + y + "." + z;
    assert t[..k] == w && t[k..] == tail;
    var u := "v" + x + "." + y + ".";
    assert w[..j + 1] == u && w[j + 1..] == z;
    var r := "v" + x + ".";
    assert u[..i + 1] == r && u[i + 1..j] == y;
    assert r[1..i] == x;
  }

  lemma TailOfPrinted(t: string, k: nat, pre: string)
    requires k <= |t| && (pre == "" || IsIdent(pre))
    requires t[k..] == if pre == "" then "" else "-" + pre
    ensures TailAt(t, k) == (pre, "")
  {
    if pre != "" {
      assert t[k] == t[k..][0] == '-';
      assert t[k + 1..] == pre;
      IdentSlice(t, k + 1, |t|);
      IdentEndOf(t, k + 1, |t|);
      var q := IdentEnd(t, k + 1);
      assert q == |t| > k + 1;
      var u := DotIdentsEnd(t, q);
      assert u == |t| && BuildEnd(t, u) == u;
      assert TailAt(t, k) == (t[k + 1..q], t[u..u]);
      assert t[u..u] == "" && t[k + 1..q] == pre;
      assert TailAt(t, k) == (pre, "");
    } else {
      assert k == |t| && BuildEnd(t, k) == k;
      assert t[k..k] == "";
    }
  }
}

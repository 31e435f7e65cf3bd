/** The parts of Go's `strings`, `bufio`, `unicode` and `strconv` packages that the
    installer relies on. A Go string is modelled as a sequence of code points. */
module GoStrings {

  /** `unicode.IsSpace`: the Latin-1 spaces and the other White_Space code points. */
  predicate IsSpace(c: char) {
    || c == ' ' || c == '\t' || c == '\n' || c == '\U{000B}' || c == '\U{000C}' || c == '\r'
    || c == '\U{0085}' || c == '\U{00A0}' || c == '\U{1680}'
    || ('\U{2000}' <= c <= '\U{200A}')
    || c == '\U{2028}' || c == '\U{2029}' || c == '\U{202F}' || c == '\U{205F}' || c == '\U{3000}'
  }

  predicate IsDigit(c: char) { '0' <= c <= '9' }

  predicate AllDigits(s: string) { forall i :: 0 <= i < |s| ==> IsDigit(s[i]) }

  // ---------------------------------------------------------------------------
  // Line reading: `for { line, err := br.ReadString('\n'); if err == io.EOF { break } … }`
  // ---------------------------------------------------------------------------

  /** A line as `ReadString('\n')` returns it without error: ends in its only newline. */
  predicate IsLine(l: string) {
    |l| > 0 && l[|l| - 1] == '\n' && '\n' !in l[..|l| - 1]
  }

  function Concat(ls: seq<string>): string {
    if ls == [] then "" else ls[0] + Concat(ls[1..])
  }

  lemma ConcatCons(l: string, ls: seq<string>)
    ensures Concat([l] + ls) == l + Concat(ls)
  {
    assert ([l] + ls)[1..] == ls;
  }

  lemma ConcatSnoc(ls: seq<string>, l: string)
    ensures Concat(ls + [l]) == Concat(ls) + l
  {
    if ls == [] {
      assert ls + [l] == [l];
    } else {
      assert (ls + [l])[1..] == ls[1..] + [l];
      ConcatSnoc(ls[1..], l);
    }
  }

  /** What one `ReadString('\n')` call consumes: the length of the first line with its
      newline, or 0 when no newline comes (the call then reports io.EOF). */
  function LineEnd(s: string): (k: nat)
    ensures k <= |s|
    ensures k > 0 ==> s[k - 1] == '\n'
    decreases |s|
  {
    if s == "" then 0
    else if s[0] == '\n' then 1
    else
      var r := LineEnd(s[1..]);
      if r == 0 then 0 else r + 1
  }

  /** The call finds a newline exactly when there is one, and what it returns then is
      a line. */
  lemma {:induction false} LineEndSpec(s: string)
    ensures LineEnd(s) == 0 <==> '\n' !in s
    ensures LineEnd(s) > 0 ==> IsLine(s[..LineEnd(s)])
    decreases |s|
  {
    if s != "" && s[0] != '\n' {
      LineEndSpec(s[1..]);
      var r := LineEnd(s[1..]);
      if r > 0 {
        assert s[..r + 1][..r] == [s[0]] + s[1..][..r][..r - 1];
      } else {
        assert forall i :: 0 <= i < |s| ==> (i == 0 || s[i] == s[1..][i - 1]);
      }
    }
  }

  /** A line followed by anything is consumed whole by the first call. */
  lemma {:induction false} LineEndOfLine(l: string, x: string)
    requires IsLine(l)
    ensures LineEnd(l + x) == |l|
    decreases |l|
  {
    var s := l + x;
    if |l| > 1 {
      assert l[0] in l[..|l| - 1];
      assert s[1..] == l[1..] + x;
      assert l[1..][..|l| - 2] == l[..|l| - 1][1..];
      LineEndOfLine(l[1..], x);
    }
  }

  /** The lines such a loop processes: every newline-terminated line, in order. A
      final fragment without a newline comes back together with io.EOF and is
      dropped, so the lines cover the input up to and including its last newline. */
  function Lines(s: string): seq<string>
    decreases |s|
  {
    var k := LineEnd(s);
    if k == 0 then [] else [s[..k]] + Lines(s[k..])
  }

  /** The final fragment after the last newline, which the loop drops. */
  function Unterminated(s: string): string
    decreases |s|
  {
    var k := LineEnd(s);
    if k == 0 then s else Unterminated(s[k..])
  }

  lemma LinesEmpty(s: string)
    ensures Lines(s) == [] <==> '\n' !in s
  {
    LineEndSpec(s);
  }

  lemma {:induction false} UnterminatedHasNoNewline(s: string)
    ensures '\n' !in Unterminated(s)
    decreases |s|
  {
    LineEndSpec(s);
    if LineEnd(s) > 0 {
      UnterminatedHasNoNewline(s[LineEnd(s)..]);
    }
  }

  /** Every element of `Lines(s)` is a line. */
  lemma {:induction false} LinesAreLines(s: string)
    ensures forall i :: 0 <= i < |Lines(s)| ==> IsLine(Lines(s)[i])
    decreases |s|
  {
    var k := LineEnd(s);
    if k > 0 {
      LineEndSpec(s);
      LinesAreLines(s[k..]);
    }
  }

  lemma SplitAt(s: string, n: nat)
    requires n <= |s|
    ensures s == s[..n] + s[n..]
  {
  }

  /** The lines and the dropped fragment make up the whole input. */
  lemma {:induction false} LinesCover(s: string)
    ensures Concat(Lines(s)) + Unterminated(s) == s
    decreases |s|
  {
    var k := LineEnd(s);
    if k > 0 {
      var x, y := s[..k], s[k..];
      LinesCover(y);
      SplitAt(s, k);
      CoverStep(s, x, y, Lines(y), Unterminated(y));
    }
  }

  lemma CoverStep(s: string, x: string, y: string, ls: seq<string>, u: string)
    requires s == x + y && Concat(ls) + u == y
    ensures Concat([x] + ls) + u == s
  {
    ConcatCons(x, ls);
    assert (x + Concat(ls)) + u == x + (Concat(ls) + u);
  }

  /** Reading a line off the front leaves the lines of the rest. */
  lemma LinesCons(l: string, x: string)
    requires IsLine(l)
    ensures Lines(l + x) == [l] + Lines(x)
    ensures Unterminated(l + x) == Unterminated(x)
  {
    LineEndOfLine(l, x);
    var s := l + x;
    assert s[..|l|] == l && s[|l|..] == x;
  }

  /** Splitting newline-terminated lines back out of their concatenation. */
  lemma {:induction false} LinesOfConcat(ls: seq<string>)
    requires forall i :: 0 <= i < |ls| ==> IsLine(ls[i])
    ensures Lines(Concat(ls)) == ls
  {
    if ls != [] {
      LinesOfConcat(ls[1..]);
      LinesCons(ls[0], Concat(ls[1..]));
      assert ls == [ls[0]] + ls[1..];
    }
  }

  /** A fragment after the last line is never read as a line. */
  lemma {:induction false} LinesIgnoreFragment(ls: seq<string>, u: string)
    requires forall i :: 0 <= i < |ls| ==> IsLine(ls[i])
    requires '\n' !in u
    ensures Lines(Concat(ls) + u) == ls
  {
    if ls == [] {
      LinesEmpty(u);
    } else {
      LinesIgnoreFragment(ls[1..], u);
      Regroup(ls[0], Concat(ls[1..]), u);
      LinesCons(ls[0], Concat(ls[1..]) + u);
      assert ls == [ls[0]] + ls[1..];
    }
  }

  /** Whether a line loop that stops at the first line satisfying `p` stops at all. */
  function AnyLine(s: string, p: string -> bool): bool
    decreases |s|
  {
    var k := LineEnd(s);
    k > 0 && (p(s[..k]) || AnyLine(s[k..], p))
  }

  /** The loop stops exactly when one of the lines it reads satisfies `p`. */
  lemma {:induction false} AnyLineIff(s: string, p: string -> bool)
    ensures AnyLine(s, p) <==> exists i :: 0 <= i < |Lines(s)| && p(Lines(s)[i])
    decreases |s|
  {
    var k := LineEnd(s);
    if k > 0 {
      AnyLineIff(s[k..], p);
      var ls := Lines(s);
      assert ls[0] == s[..k];
      assert forall i :: 0 < i < |ls| ==> ls[i] == Lines(s[k..])[i - 1];
      if AnyLine(s[k..], p) && !p(s[..k]) {
        var i :| 0 <= i < |Lines(s[k..])| && p(Lines(s[k..])[i]);
        assert ls[i + 1] == Lines(s[k..])[i];
      }
    }
  }

  /** A fragment without a newline after the last line is never looked at. */
  lemma AnyLineIgnoresFragment(ls: seq<string>, u: string, p: string -> bool)
    requires forall i :: 0 <= i < |ls| ==> IsLine(ls[i])
    requires '\n' !in u
    ensures AnyLine(Concat(ls) + u, p) == AnyLine(Concat(ls), p)
  {
    LinesIgnoreFragment(ls, u);
    LinesOfConcat(ls);
    AnyLineIff(Concat(ls) + u, p);
    AnyLineIff(Concat(ls), p);
  }

  lemma Regroup(a: string, b: string, c: string)
    ensures a + (b + c) == (a + b) + c
  {
  }

  /** `bufio.Reader.ReadString('\n')` once, error ignored: the first line with its
      newline, or everything there is when no newline comes. */
  function FirstLine(s: string): (r: string)
    ensures r <= s
  {
    if LineEnd(s) > 0 then s[..LineEnd(s)] else s
  }

  // ---------------------------------------------------------------------------
  // strings.TrimSpace, strings.TrimLeft, strings.Fields, strings.Contains
  // ---------------------------------------------------------------------------

  function TrimLeftSpace(s: string): (r: string)
    ensures |r| <= |s| && r == s[|s| - |r|..]
    ensures r == "" || !IsSpace(r[0])
    ensures forall i :: 0 <= i < |s| - |r| ==> IsSpace(s[i])
  {
    if s != "" && IsSpace(s[0]) then
      var r := TrimLeftSpace(s[1..]);
      assert s[1..][|s| - 1 - |r|..] == s[|s| - |r|..];
      assert forall i :: 1 <= i < |s| - |r| ==> s[1..][i - 1] == s[i];
      r
    else s
  }

  function TrimRightSpace(s: string): (r: string)
    ensures r <= s
    ensures r == "" || !IsSpace(r[|r| - 1])
    ensures forall i :: |r| <= i < |s| ==> IsSpace(s[i])
  {
    if s != "" && IsSpace(s[|s| - 1]) then TrimRightSpace(s[..|s| - 1]) else s
  }

  /** Nothing but white space. */
  predicate AllSpace(s: string) {
    forall i :: 0 <= i < |s| ==> IsSpace(s[i])
  }

  /** `r` sits in `s` at offset `i` with nothing but white space around it. */
  predicate SpacedAt(s: string, r: string, i: int) {
    0 <= i <= |s| - |r| && r == s[i..i + |r|] && AllSpace(s[..i]) && AllSpace(s[i + |r|..])
  }

  /** `strings.TrimSpace`: drops leading and trailing white space, and nothing else. */
  function TrimSpace(s: string): (r: string)
    ensures |r| <= |s|
    ensures r == "" || (!IsSpace(r[0]) && !IsSpace(r[|r| - 1]))
    ensures r == "" <==> AllSpace(s)
    ensures SpacedAt(s, r, LeadingSpaces(s))
  {
    TrimBothEnds(s);
    TrimToNothing(s);
    TrimRightSpace(TrimLeftSpace(s))
  }

  /** The length of the run of white space `s` starts with. */
  function LeadingSpaces(s: string): (n: nat)
    ensures n <= |s| && AllSpace(s[..n])
    ensures n == |s| || !IsSpace(s[n])
  {
    LeftTrimDropsSpace(s);
    |s| - |TrimLeftSpace(s)|
  }

  /** Trimming both ends keeps the slice that starts where the leading white space ends. */
  lemma TrimBothEnds(s: string)
    ensures SpacedAt(s, TrimRightSpace(TrimLeftSpace(s)), LeadingSpaces(s))
  {
    var l := TrimLeftSpace(s);
    LeftTrimDropsSpace(s);
    RightTrimDropsSpace(l);
    SpacedSlice(s, l, TrimRightSpace(l), |s| - |l|);
  }

  /** A prefix `r` of the suffix `l` of `s` that starts at `i`, with white space before
      `i` and after `r`, sits in `s` at `i`. */
  lemma SpacedSlice(s: string, l: string, r: string, i: nat)
    requires i <= |s| && l == s[i..] && r <= l
    requires AllSpace(s[..i]) && AllSpace(l[|r|..])
    ensures SpacedAt(s, r, i)
  {
    assert r == l[..|r|];
    assert s[i..i + |r|] == l[..|r|];
    assert s[i + |r|..] == l[|r|..];
  }

  /** What `TrimLeftSpace` drops is white space. */
  lemma LeftTrimDropsSpace(s: string)
    ensures AllSpace(s[..|s| - |TrimLeftSpace(s)|])
  {
    var p := s[..|s| - |TrimLeftSpace(s)|];
    forall k | 0 <= k < |p| ensures IsSpace(p[k]) {
      assert p[k] == s[k];
    }
  }

  /** What `TrimRightSpace` drops is white space. */
  lemma RightTrimDropsSpace(l: string)
    ensures AllSpace(l[|TrimRightSpace(l)|..])
  {
    var n := |TrimRightSpace(l)|;
    var t := l[n..];
    forall k | 0 <= k < |t| ensures IsSpace(t[k]) {
      assert t[k] == l[n + k];
    }
  }

  /** Trimming leaves nothing exactly when there is nothing but white space. */
  lemma TrimToNothing(s: string)
    ensures TrimRightSpace(TrimLeftSpace(s)) == "" <==> AllSpace(s)
  {
    var l := TrimLeftSpace(s);
    var r := TrimRightSpace(l);
    TrimBothEnds(s);
    var i := |s| - |l|;
    if r == "" {
      assert l == "";
      assert s[..i] == s;
    } else {
      assert s[i] == r[0];
    }
  }

  /** `strings.TrimLeft(s, cutset)`: drops leading characters that are in `cutset`. */
  function TrimLeft(s: string, cutset: string): (r: string)
    ensures |r| <= |s| && r == s[|s| - |r|..]
    ensures r == "" || r[0] !in cutset
    ensures forall i :: 0 <= i < |s| - |r| ==> s[i] in cutset
  {
    if s != "" && s[0] in cutset then TrimLeft(s[1..], cutset) else s
  }

  predicate NotSpace(c: char) { !IsSpace(c) }

  predicate NoSpace(s: string) { forall j :: 0 <= j < |s| ==> NotSpace(s[j]) }

  /** Length of the leading run of non-space characters. */
  function FieldEnd(t: string): (k: nat)
    ensures k <= |t|
    ensures NoSpace(t[..k])
    ensures k == |t| || IsSpace(t[k])
    ensures t != "" && !IsSpace(t[0]) ==> k > 0
  {
    if t != "" && !IsSpace(t[0]) then
      var k := 1 + FieldEnd(t[1..]);
      assert t[..k] == [t[0]] + t[1..][..k - 1];
      k
    else 0
  }

  /** `strings.Fields`: the maximal runs of non-space characters, in order. */
  function Fields(s: string): (r: seq<string>)
    ensures forall i :: 0 <= i < |r| ==> r[i] != "" && NoSpace(r[i])
    decreases |s|
  {
    if s == "" then []
    else if IsSpace(s[0]) then Fields(s[1..])
    else
      var k := FieldEnd(s);
      [s[..k]] + Fields(s[k..])
  }

  /** Trimming a line whose text has no space at either end drops just its newline. */
  lemma TrimNewline(p: string)
    requires p != "" && !IsSpace(p[0]) && !IsSpace(p[|p| - 1])
    ensures TrimSpace(p + "\n") == p
  {
    var l := p + "\n";
    assert l[0] == p[0];
    assert TrimLeftSpace(l) == l;
    assert l[..|l| - 1] == p;
    assert TrimRightSpace(p) == p;
  }

  /** Trimming a field changes nothing. */
  lemma TrimSpaceOfField(s: string)
    requires NoSpace(s)
    ensures TrimSpace(s) == s
  {
    if s != "" {
      assert NotSpace(s[0]) && NotSpace(s[|s| - 1]);
    }
  }

  /** A field followed by a space or by nothing ends where the field ends. */
  lemma {:induction false} FieldEndOf(x: string, y: string)
    requires NoSpace(x) && (y == "" || IsSpace(y[0]))
    ensures FieldEnd(x + y) == |x|
    decreases |x|
  {
    if x != "" {
      assert (x + y)[1..] == x[1..] + y;
      assert NotSpace(x[0]);
      FieldEndOf(x[1..], y);
    }
  }

  /** A leading field is the first element of `Fields`. */
  lemma FieldsOfWord(x: string, y: string)
    requires x != "" && NoSpace(x) && (y == "" || IsSpace(y[0]))
    ensures Fields(x + y) == [x] + Fields(y)
  {
    FieldEndOf(x, y);
    assert NotSpace(x[0]);
    assert (x + y)[..|x|] == x && (x + y)[|x|..] == y;
  }

  /** `strings.Fields` of two words separated by one space. */
  lemma FieldsOfPair(x: string, y: string)
    requires x != "" && NoSpace(x) && y != "" && NoSpace(y)
    ensures Fields(x + " " + y) == [x, y]
  {
    var t := " " + y;
    assert x + " " + y == x + t;
    FieldsOfWord(x, t);
    assert t[1..] == y;
    FieldsOfSpace(t);
    assert y + "" == y;
    FieldsOfWord(y, "");
  }

  /** A leading space is skipped. */
  lemma FieldsOfSpace(t: string)
    requires t != "" && IsSpace(t[0])
    ensures Fields(t) == Fields(t[1..])
  {
  }

  /** `strings.Contains`. */
  predicate Contains(s: string, sub: string) {
    exists i :: 0 <= i <= |s| && sub <= s[i..]
  }

  /** Nothing contains a longer text. */
  lemma NotContainsLonger(s: string, sub: string)
    requires |s| < |sub|
    ensures !Contains(s, sub)
  {
    forall i | 0 <= i <= |s| ensures !(sub <= s[i..]) {
      assert |s[i..]| < |sub|;
    }
  }

  lemma ContainsAt(s: string, sub: string, i: nat)
    requires i <= |s| && sub <= s[i..]
    ensures Contains(s, sub)
  {
  }

  /** `sub` is not in `s` when the one place its first character occurs does not
      start it. */
  lemma NotContainsFirstChar(s: string, sub: string, j: nat)
    requires sub != "" && j < |s|
    requires forall i :: 0 <= i < |s| && s[i] == sub[0] ==> i == j
    requires !(sub <= s[j..])
    ensures !Contains(s, sub)
  {
    forall i | 0 <= i <= |s|
      ensures !(sub <= s[i..])
    {
      if i < |s| && i != j {
        assert s[i..][0] == s[i] != sub[0];
      }
    }
  }

  /** `strings.Count(s, string(c)) `: how many times `c` occurs. `strings.Split(s, sep)`
      on a one-character separator returns one more piece than that. */
  function CountChar(s: string, c: char): (n: nat)
    ensures n <= |s|
    ensures n == 0 <==> c !in s
  {
    if s == "" then 0 else (if s[0] == c then 1 else 0) + CountChar(s[1..], c)
  }

  // ---------------------------------------------------------------------------
  // ASCII case mapping (strings.ToLower / strings.ToUpper on ASCII input)
  // ---------------------------------------------------------------------------

  function LowerChar(c: char): char {
    if 'A' <= c <= 'Z' then (c as int + 32) as char else c
  }

  function UpperChar(c: char): char {
    if 'a' <= c <= 'z' then (c as int - 32) as char else c
  }

  function ToLower(s: string): (r: string)
    ensures |r| == |s|
  {
    seq(|s|, i requires 0 <= i < |s| => LowerChar(s[i]))
  }

  function ToUpper(s: string): (r: string)
    ensures |r| == |s|
  {
    seq(|s|, i requires 0 <= i < |s| => UpperChar(s[i]))
  }

  // ---------------------------------------------------------------------------
  // Decimal numbers: fmt's %v of an unsigned integer, and the digit value strconv reads
  // ---------------------------------------------------------------------------

  function DigitChar(d: nat): (c: char)
    requires d < 10
    ensures IsDigit(c)
  {
    ('0' as int + d) as char
  }

  function DigitValue(c: char): (d: nat)
    requires IsDigit(c)
    ensures d < 10
  {
    c as int - '0' as int
  }

  /** Decimal rendering of a natural number, as `%v` prints an unsigned integer. */
  function FormatUint(n: nat): (r: string)
    ensures r != "" && AllDigits(r)
    ensures r[0] == '0' <==> n == 0
    ensures n == 0 ==> r == "0"
  {
    if n < 10 then [DigitChar(n)] else FormatUint(n / 10) + [DigitChar(n % 10)]
  }

  /** The number a string of decimal digits denotes. */
  function DigitsValue(d: string): nat
    requires AllDigits(d)
  {
    if d == "" then 0 else 10 * DigitsValue(d[..|d| - 1]) + DigitValue(d[|d| - 1])
  }

  /** A decimal numeral without leading zeros. */
  predicate Canonical(d: string) {
    d != "" && AllDigits(d) && (d[0] == '0' ==> d == "0")
  }

  lemma {:induction false} DigitsValueOfFormat(n: nat)
    ensures DigitsValue(FormatUint(n)) == n
  {
    if n >= 10 {
      DigitsValueOfFormat(n / 10);
      var r := FormatUint(n);
      assert r[..|r| - 1] == FormatUint(n / 10);
    }
  }

  lemma {:induction false} PositiveValue(d: string)
    requires d != "" && AllDigits(d) && d[0] != '0'
    ensures DigitsValue(d) >= 1
  {
    if |d| > 1 {
      PositiveValue(d[..|d| - 1]);
    }
  }

  /** Formatting the value of a canonical numeral gives the numeral back. */
  lemma {:induction false} FormatOfDigitsValue(d: string)
    requires Canonical(d)
    ensures FormatUint(DigitsValue(d)) == d
  {
    if |d| == 1 {
      assert d == [d[0]];
    } else {
      var p := d[..|d| - 1];
      assert p[0] == d[0];
      PositiveValue(p);
      FormatOfDigitsValue(p);
      var v := DigitsValue(d);
      assert v / 10 == DigitsValue(p) && v % 10 == DigitValue(d[|d| - 1]);
      assert d == p + [d[|d| - 1]];
    }
  }

  lemma FormatUintCanonical(n: nat)
    ensures Canonical(FormatUint(n))
  {
  }
}

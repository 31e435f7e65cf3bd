/** cmd/dcrinstall/isrunning_unix.go: whether a process of a given name shows up in the
    output of `ps`. The name is matched as a whole word: `(?:^|\W)name(?:$|\W)` for a
    name without regular-expression metacharacters. */
module IsRunningUnix {
  import opened Wrappers
  import opened GoStrings

  /** The argument list of `ps`: `-Aaww` on Linux, the BSD spelling elsewhere. */
  function PsArgs(goos: string): (r: seq<string>)
    ensures |r| == 1 && r[0] != ""
    ensures goos == "linux" <==> r[0][0] == '-'
    ensures goos == "linux" ==> r == ["-Aaww"]
    ensures goos != "linux" ==> r == ["Aaww"]
  {
    if goos == "linux" then ["-Aaww"] else ["Aaww"]
  }

  /** `\w` in Go's regular expressions: ASCII letters, digits and `_`. */
  predicate IsWordChar(c: char) {
    ('0' <= c <= '9') || ('a' <= c <= 'z') || ('A' <= c <= 'Z') || c == '_'
  }

  predicate NameAt(t: string, name: string, i: nat) {
    i + |name| <= |t| && t[i..i + |name|] == name
  }

  /** `name` at `i`, preceded by the start of the text or a non-word character and
      followed by the end of the text or a non-word character. */
  predicate BoundedAt(t: string, name: string, i: nat) {
    && NameAt(t, name, i)
    && (i == 0 || !IsWordChar(t[i - 1]))
    && (i + |name| == |t| || !IsWordChar(t[i + |name|]))
  }

  /** `re.MatchString(line)`. */
  predicate Matches(line: string, name: string) {
    exists i: nat :: i <= |line| && BoundedAt(line, name, i)
  }

  /** What `isRunning` answers for the `ps` output `out`: some line it reads matches. */
  predicate Running(out: string, name: string) {
    AnyLine(out, l => Matches(l, name))
  }

  /** `isRunning(name)` on a host whose `runtime.GOOS` is `goos`; `ps` stands for running
      `ps` with the given arguments, giving its combined output or an error. */
  method IsRunning(name: string, goos: string, ps: seq<string> -> Result<string, string>)
    returns (r: Result<bool, string>)
    ensures ps(PsArgs(goos)).Err? ==> r == Err(ps(PsArgs(goos)).error)
    ensures ps(PsArgs(goos)).Ok? ==> r == Ok(Running(ps(PsArgs(goos)).value, name))
  {
    var args := if goos == "linux" then ["-Aaww"] else ["Aaww"];
    var o := ps(args);
    if o.Err? {
      return Err(o.error);
    }
    var rest := o.value;
    while true
      invariant Running(o.value, name) == AnyLine(rest, l => Matches(l, name))
      decreases |rest|
    {
      var k := LineEnd(rest);
      if k == 0 {
        return Ok(false);
      }
      var line := rest[..k];
      if Matches(line, name) {
        return Ok(true);
      }
      rest := rest[k..];
    }
  }

  // ---------------------------------------------------------------------------
  // Properties
  // ---------------------------------------------------------------------------

  /** The answer is yes exactly when one of the newline-terminated lines matches. */
  lemma RunningIff(out: string, name: string)
    ensures Running(out, name) <==> exists i :: 0 <= i < |Lines(out)| && Matches(Lines(out)[i], name)
  {
    AnyLineIff(out, l => Matches(l, name));
  }

  /** A last line without a newline is never examined. */
  lemma RunningIgnoresFragment(ls: seq<string>, u: string, name: string)
    requires forall i :: 0 <= i < |ls| ==> IsLine(ls[i])
    requires '\n' !in u
    ensures Running(Concat(ls) + u, name) == Running(Concat(ls), name)
  {
    AnyLineIgnoresFragment(ls, u, l => Matches(l, name));
  }

  /** The name between two non-word characters (a path separator, a blank) matches. */
  lemma MatchesBetween(x: string, name: string, y: string)
    requires x == "" || !IsWordChar(x[|x| - 1])
    requires y == "" || !IsWordChar(y[0])
    ensures Matches(x + name + y, name)
  {
    var t := x + name + y;
    assert t[|x|..|x| + |name|] == name;
    if x != "" {
      assert t[|x| - 1] == x[|x| - 1];
    }
    if y != "" {
      assert t[|x| + |name|] == y[0];
    }
    assert BoundedAt(t, name, |x|);
  }

  /** A name that runs on into a word character does not match there: `dcrd` is not
      found in a line that only names `dcrdata`. */
  lemma LongerWordDoesNotMatch()
    ensures !Matches("dcrdata\n", "dcrd")
  {
    var t := "dcrdata\n";
    forall i: nat | i <= |t| ensures !BoundedAt(t, "dcrd", i) {
      if NameAt(t, "dcrd", i) {
        assert t[i] == 'd' && t[i + 1] == 'c';
        assert i == 0;
        assert IsWordChar(t[4]);
      }
    }
  }
}

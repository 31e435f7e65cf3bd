/** cmd/dcrinstall/util_unix.go, `ctx.isRunning`: whether the environment dump of `ps`
    shows a process started as `name`, by the `_=` variable the shell sets to the path
    of the command it runs. The pattern is `_=[[:print:]]*name`, for a name without
    regular-expression metacharacters. */
module UtilUnix {
  import opened Wrappers
  import opened GoStrings

  /** The argument list of `ps`: `aeww` on Linux, `Aaeww` elsewhere. */
  function PsArgs(goos: string): (r: seq<string>)
    ensures |r| == 1 && r[0] != ""
    ensures goos == "linux" <==> r[0][0] == 'a'
    ensures goos == "linux" ==> r == ["aeww"]
    ensures goos != "linux" ==> r == ["Aaeww"]
  {
    if goos == "linux" then ["aeww"] else ["Aaeww"]
  }

  /** `[[:print:]]`: the printable ASCII characters, blank included. */
  predicate IsPrint(c: char) { ' ' <= c <= '~' }

  /** The end of the run of printable characters that starts at `p`. */
  function PrintEnd(t: string, p: nat): (e: nat)
    requires p <= |t|
    ensures p <= e <= |t|
    ensures forall k :: p <= k < e ==> IsPrint(t[k])
    ensures e == |t| || !IsPrint(t[e])
    decreases |t| - p
  {
    if p == |t| || !IsPrint(t[p]) then p else PrintEnd(t, p + 1)
  }

  predicate NameAt(t: string, name: string, j: nat) {
    j + |name| <= |t| && t[j..j + |name|] == name
  }

  /** The last position in `[lo, hi]` where `name` occurs: the greedy `[[:print:]]*`
      gives back as little as it can. */
  function LastNameAt(t: string, name: string, lo: nat, hi: nat): (r: Option<nat>)
    ensures r.Some? ==> lo <= r.value <= hi && NameAt(t, name, r.value)
    ensures r.Some? ==> forall j :: r.value < j <= hi ==> !NameAt(t, name, j)
    ensures r.None? ==> forall j :: lo <= j <= hi ==> !NameAt(t, name, j)
    decreases hi
  {
    if hi < lo then None
    else if NameAt(t, name, hi) then Some(hi)
    else if hi == lo then None
    else LastNameAt(t, name, lo, hi - 1)
  }

  /** The end of the match that starts at `i`, if one does. */
  function MatchAt(t: string, name: string, i: nat): (r: Option<nat>)
    requires i <= |t|
    ensures r.Some? ==> i + 2 <= r.value <= |t|
  {
    if i + 2 <= |t| && t[i] == '_' && t[i + 1] == '=' then
      match LastNameAt(t, name, i + 2, PrintEnd(t, i + 2))
      case None => None
      case Some(j) => Some(j + |name|)
    else None
  }

  /** `re.FindString(t)` from position `i` on: the leftmost match, or nothing. */
  function FindFrom(t: string, name: string, i: nat): (r: Option<string>)
    requires i <= |t|
    ensures r.Some? ==> |r.value| >= 2 && r.value[..2] == "_="
    decreases |t| - i
  {
    if i == |t| then None
    else match MatchAt(t, name, i)
      case Some(e) => Some(t[i..e])
      case None => FindFrom(t, name, i + 1)
  }

  /** The test one line passes: trimmed, its match is non-empty and splits around `=`
      into exactly two pieces, so the `=` of `_=` is its only one. */
  predicate Qualifies(line: string, name: string) {
    var m := FindFrom(TrimSpace(line), name, 0);
    m.Some? && CountChar(m.value, '=') == 1
  }

  predicate Running(out: string, name: string) {
    AnyLine(out, l => Qualifies(l, name))
  }

  /** `ctx.isRunning(name)` on a host whose `runtime.GOOS` is `goos`; `ps` stands for
      running `ps` with the given arguments. */
  method IsRunning(name: string, goos: string, ps: seq<string> -> Result<string, string>)
    returns (r: Result<bool, string>)
    ensures ps(PsArgs(goos)).Err? ==> r == Err(ps(PsArgs(goos)).error)
    ensures ps(PsArgs(goos)).Ok? ==> r == Ok(Running(ps(PsArgs(goos)).value, name))
  {
    var args := if goos == "linux" then ["aeww"] else ["Aaeww"];
    var o := ps(args);
    if o.Err? {
      return Err(o.error);
    }
    var rest := o.value;
    while true
      invariant Running(o.value, name) == AnyLine(rest, l => Qualifies(l, name))
      decreases |rest|
    {
      var k := LineEnd(rest);
      if k == 0 {
        return Ok(false);
      }
      var line := TrimSpace(rest[..k]);
      var s := FindFrom(line, name, 0);
      rest := rest[k..];
      if s.None? {
        continue;
      }
      if CountChar(s.value, '=') + 1 != 2 {
        continue;
      }
      return Ok(true);
    }
  }

  // ---------------------------------------------------------------------------
  // Properties
  // ---------------------------------------------------------------------------

  lemma RunningIff(out: string, name: string)
    ensures Running(out, name) <==> exists i :: 0 <= i < |Lines(out)| && Qualifies(Lines(out)[i], name)
  {
    AnyLineIff(out, l => Qualifies(l, name));
  }

  lemma RunningIgnoresFragment(ls: seq<string>, u: string, name: string)
    requires forall i :: 0 <= i < |ls| ==> IsLine(ls[i])
    requires '\n' !in u
    ensures Running(Concat(ls) + u, name) == Running(Concat(ls), name)
  {
    AnyLineIgnoresFragment(ls, u, l => Qualifies(l, name));
  }

  predicate AllPrint(s: string) { forall k :: 0 <= k < |s| ==> IsPrint(s[k]) }

  /** A line that is `_=` followed by a printable path ending in the name: it qualifies
      exactly when the path holds no `=` of its own. */
  lemma EnvLine(p: string, name: string)
    requires AllPrint(p) && AllPrint(name) && name != "" && '=' !in name
    requires !IsSpace(name[|name| - 1])
    ensures Qualifies("_=" + p + name + "\n", name) <==> '=' !in p
  {
    var t := "_=" + p + name;
    assert t[0] == '_' && t[1] == '=';
    TrimNewline(t);
    assert "_=" + p + name + "\n" == t + "\n";
    WholeMatch(t, p, name);
    CountEquals(p, name);
  }

  /** The match of such a text is the whole text. */
  lemma WholeMatch(t: string, p: string, name: string)
    requires t == "_=" + p + name && AllPrint(p) && AllPrint(name)
    ensures FindFrom(t, name, 0) == Some(t)
  {
    var n := |p| + 2;
    assert t[n..] == name;
    assert forall k :: 2 <= k < |t| ==> IsPrint(t[k]) by {
      forall k | 2 <= k < |t| ensures IsPrint(t[k]) {
        if k < n { assert t[k] == p[k - 2]; } else { assert t[k] == name[k - n]; }
      }
    }
    assert PrintEnd(t, 2) == |t|;
    assert NameAt(t, name, n) by { assert t[n..n + |name|] == name; }
    assert LastNameAt(t, name, 2, |t|) == Some(n) by {
      LastAtEnd(t, name, 2, n);
    }
    assert t[0..|t|] == t;
  }

  /** With `name` at `n` and nothing after it, `n` is the last place it occurs. */
  lemma {:induction false} LastAtEnd(t: string, name: string, lo: nat, n: nat)
    requires lo <= n && n + |name| == |t| && NameAt(t, name, n)
    ensures LastNameAt(t, name, lo, |t|) == Some(n)
    decreases |name|
  {
    LastFrom(t, name, lo, n, |t|);
  }

  lemma {:induction false} LastFrom(t: string, name: string, lo: nat, n: nat, hi: nat)
    requires lo <= n <= hi && n + |name| == |t| && NameAt(t, name, n)
    ensures LastNameAt(t, name, lo, hi) == Some(n)
    decreases hi
  {
    if hi > n {
      assert !NameAt(t, name, hi);
      LastFrom(t, name, lo, n, hi - 1);
    }
  }

  lemma CountEquals(p: string, name: string)
    requires '=' !in name
    ensures CountChar("_=" + p + name, '=') == 1 <==> '=' !in p
  {
    var s := p + name;
    assert "_=" + p + name == "_=" + s;
    CountConcat("_=", s, '=');
    CountConcat(p, name, '=');
    assert CountChar("_=", '=') == 1 by {
      assert "_="[1..] == "=" && "="[1..] == "";
    }
  }

  lemma {:induction false} CountConcat(a: string, b: string, c: char)
    ensures CountChar(a + b, c) == CountChar(a, c) + CountChar(b, c)
    decreases |a|
  {
    if a != "" {
      assert (a + b)[1..] == a[1..] + b;
      CountConcat(a[1..], b, c);
    } else {
      assert a + b == b;
    }
  }
}

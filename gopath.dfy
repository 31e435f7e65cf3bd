/** The parts of Go's `path/filepath` package that the installer relies on, with `/`
    as the separator. */
module GoPath {

  /** `filepath.Join` of two elements: empty elements are dropped and the rest are
      joined by one separator. `Clean` is not applied. */
  function Join(a: string, b: string): (r: string)
    ensures a == "" ==> r == b
    ensures b == "" ==> r == a
    ensures a != "" && b != "" ==> |r| == |a| + 1 + |b| && a <= r && r[|a|] == '/'
  {
    if a == "" then b else if b == "" then a else a + "/" + b
  }

  /** Index of the last `/` in `s`, if there is one. */
  function LastSlash(s: string): (r: int)
    ensures -1 <= r < |s|
    ensures r >= 0 ==> s[r] == '/'
    ensures forall i :: r < i < |s| ==> s[i] != '/'
  {
    if s == "" then -1
    else if s[|s| - 1] == '/' then |s| - 1
    else LastSlash(s[..|s| - 1])
  }

  /** `filepath.Ext`: the suffix from the last `.` of the final element, or "". */
  function Ext(s: string): (r: string)
    ensures r == "" || (r[0] == '.' && '/' !in r && |r| <= |s| && s[|s| - |r|..] == r)
    ensures r != "" ==> '.' !in r[1..]
  {
    if s == "" || s[|s| - 1] == '/' then ""
    else if s[|s| - 1] == '.' then "."
    else
      var e := Ext(s[..|s| - 1]);
      if e == "" then "" else e + [s[|s| - 1]]
  }

  /** `filepath.Base`: the final element of a path. An empty path is ".",
      trailing separators are dropped and a path of only separators is "/". */
  function Base(s: string): (r: string)
    ensures r != ""
    ensures r == "/" || '/' !in r
  {
    if s == "" then "."
    else
      var t := TrimTrailingSlashes(s);
      if t == "" then "/" else t[LastSlash(t) + 1..]
  }

  function TrimTrailingSlashes(s: string): (r: string)
    ensures r <= s
    ensures r == "" || r[|r| - 1] != '/'
  {
    if s != "" && s[|s| - 1] == '/' then TrimTrailingSlashes(s[..|s| - 1]) else s
  }

  /** The final element of a path with no separator is the path itself. */
  lemma BaseOfName(s: string)
    requires s != "" && '/' !in s
    ensures Base(s) == s
  {
    assert LastSlash(s) == -1;
  }

  lemma {:induction false} LastSlashSkips(x: string, y: string)
    requires '/' !in y
    ensures LastSlash(x + y) == LastSlash(x)
  {
    if y != "" {
      var y' := y[..|y| - 1];
      assert y[|y| - 1] in y;
      assert (x + y)[..|x + y| - 1] == x + y';
      LastSlashSkips(x, y');
    } else {
      assert x + y == x;
    }
  }

  /** The final element of a joined path is the final element of its last part. */
  lemma BaseOfJoin(dir: string, name: string)
    requires name != "" && '/' !in name && name != "." && name != ".."
    ensures Base(Join(dir, name)) == name
  {
    if dir != "" {
      var j := dir + "/" + name;
      assert j[|j| - 1] == name[|name| - 1] && name[|name| - 1] in name;
      assert TrimTrailingSlashes(j) == j;
      LastSlashSkips(dir + "/", name);
      assert j[|dir| + 1..] == name;
    } else {
      BaseOfName(name);
    }
  }

  /** A final element `x.w`, with no dot or separator in `w`, has extension `.w`. */
  lemma {:induction false} ExtOfSuffix(p: string, w: string)
    requires '.' !in w && '/' !in w
    ensures Ext(p + "." + w) == "." + w
    decreases |w|
  {
    if w == "" {
      assert p + "." + w == p + ".";
    } else {
      var w', c := LastOf(w);
      ExtOfSuffix(p, w');
      assert p + "." + w == (p + "." + w') + [c];
      ExtSnoc(p + "." + w', c);
    }
  }

  /** A word without dot or separator, split before its last character. */
  lemma LastOf(w: string) returns (w': string, c: char)
    requires w != "" && '.' !in w && '/' !in w
    ensures w == w' + [c] && '.' !in w' && '/' !in w' && c != '.' && c != '/'
  {
    w', c := w[..|w| - 1], w[|w| - 1];
    assert w == w' + [c];
  }

  /** A character other than a separator or a dot extends a non-empty extension. */
  lemma ExtSnoc(t: string, c: char)
    requires c != '/' && c != '.' && Ext(t) != ""
    ensures Ext(t + [c]) == Ext(t) + [c]
  {
    assert (t + [c])[..|t|] == t;
  }
}

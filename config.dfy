/** cmd/dcrinstall/config.go: rendering a sample configuration file by rewriting the
    lines that start with an override's name. */
module Config {
  import opened Wrappers
  import opened GoStrings

  /** An entry of a sample file to be replaced: lines starting with `name` become the
      name, less its leading comment markers, followed by `content`. */
  datatype Override = Override(name: string, content: string)

  /** The comment markers stripped from an override's name. */
  const CommentMarkers: string := ";# "

  /** The line an override writes in place of a line it matches. */
  function Replacement(o: Override): (r: string)
    ensures |r| > 0 && r[|r| - 1] == '\n'
  {
    TrimLeft(o.name, CommentMarkers) + o.content + "\n"
  }

  /** One pass of the inner loop: the override applies to the line as it currently is. */
  function Step(line: string, o: Override): string {
    if o.name <= line then Replacement(o) else line
  }

  /** The line after the inner loop has tried `ovs` in list order, each against the
      line as the earlier ones left it. */
  function ApplyOverrides(line: string, ovs: seq<Override>): string
    decreases |ovs|
  {
    if ovs == [] then line else Step(ApplyOverrides(line, ovs[..|ovs| - 1]), ovs[|ovs| - 1])
  }

  /** The output for lines `ls`: each processed line, in order. */
  function RenderLines(ls: seq<string>, ovs: seq<Override>): string
    decreases |ls|
  {
    if ls == [] then "" else RenderLines(ls[..|ls| - 1], ovs) + ApplyOverrides(ls[|ls| - 1], ovs)
  }

  /** What `createConfigNormal` returns for the text `input`. */
  function Render(input: string, ovs: seq<Override>): string {
    RenderLines(Lines(input), ovs)
  }

  datatype Error = OpenFailed(filename: string)

  /** `createConfigNormal`: reads `input` line by line, runs each line through the
      overrides and accumulates the result. It never fails. */
  method CreateConfigNormal(input: string, overrides: seq<Override>) returns (r: Result<string, Error>)
    ensures r == Ok(Render(input, overrides))
  {
    var rv := "";
    var rest := input;
    while true
      invariant Render(input, overrides) == rv + Render(rest, overrides)
      decreases |rest|
    {
      var k := LineEnd(rest);
      if k == 0 {
        // ReadString returns the fragment together with io.EOF; the loop drops it.
        assert rv + Render(rest, overrides) == rv;
        break;
      }
      RenderRead(rest, overrides);
      var line := ApplyLine(rest[..k], overrides);
      Regroup(rv, line, Render(rest[k..], overrides));
      rest := rest[k..];
      rv := rv + line;
    }
    return Ok(rv);
  }

  /** Reading one line off the front: it is processed, then the rest is rendered. */
  lemma RenderRead(rest: string, ovs: seq<Override>)
    requires LineEnd(rest) > 0
    ensures var k := LineEnd(rest);
      Render(rest, ovs) == ApplyOverrides(rest[..k], ovs) + Render(rest[k..], ovs)
  {
    RenderLinesCons(rest[..LineEnd(rest)], Lines(rest[LineEnd(rest)..]), ovs);
  }

  /** The inner loop of `createConfigNormal`: each override, in order, replaces the
      line as it currently is when the line starts with its name. */
  method ApplyLine(line0: string, overrides: seq<Override>) returns (line: string)
    ensures line == ApplyOverrides(line0, overrides)
  {
    line := line0;
    for i := 0 to |overrides|
      invariant line == ApplyOverrides(line0, overrides[..i])
    {
      ApplyPrefixStep(line0, overrides, i);
      if !(overrides[i].name <= line) {
        continue;
      }
      line := TrimLeft(overrides[i].name, CommentMarkers) + overrides[i].content + "\n";
    }
    assert overrides[..|overrides|] == overrides;
  }

  lemma ApplyPrefixStep(line: string, ovs: seq<Override>, i: nat)
    requires i < |ovs|
    ensures ApplyOverrides(line, ovs[..i + 1]) == Step(ApplyOverrides(line, ovs[..i]), ovs[i])
  {
    assert ovs[..i + 1][..i] == ovs[..i];
  }

  /** `createConfigFromMemory`: the same transform over a string held in memory. */
  method CreateConfigFromMemory(conf: string, overrides: seq<Override>) returns (r: Result<string, Error>)
    ensures r == Ok(Render(conf, overrides))
  {
    r := CreateConfigNormal(conf, overrides);
  }

  /** `createConfigFromFile`: the same transform over a file of `fs`, which fails only
      when the file cannot be opened. */
  method CreateConfigFromFile(fs: map<string, string>, filename: string, overrides: seq<Override>)
    returns (r: Result<string, Error>)
    ensures filename !in fs ==> r == Err(OpenFailed(filename))
    ensures filename in fs ==> r == Ok(Render(fs[filename], overrides))
  {
    if filename !in fs {
      return Err(OpenFailed(filename));
    }
    r := CreateConfigNormal(fs[filename], overrides);
  }

  // ---------------------------------------------------------------------------
  // Properties of the line rewriting
  // ---------------------------------------------------------------------------

  /** A line that starts with none of the names is copied unchanged. */
  lemma {:induction false} NoMatchUnchanged(line: string, ovs: seq<Override>)
    requires forall k :: 0 <= k < |ovs| ==> !(ovs[k].name <= line)
    ensures ApplyOverrides(line, ovs) == line
    decreases |ovs|
  {
    if ovs != [] {
      NoMatchUnchanged(line, ovs[..|ovs| - 1]);
    }
  }

  /** A line is either kept or replaced by the line of one of the overrides: the last
      one that matched. */
  lemma {:induction false} ResultIsLineOrReplacement(line: string, ovs: seq<Override>)
    ensures var r := ApplyOverrides(line, ovs);
      r == line || exists k :: 0 <= k < |ovs| && r == Replacement(ovs[k])
    decreases |ovs|
  {
    if ovs != [] {
      var init, last := ovs[..|ovs| - 1], ovs[|ovs| - 1];
      var r0 := ApplyOverrides(line, init);
      if last.name <= r0 {
        assert ApplyOverrides(line, ovs) == Replacement(ovs[|ovs| - 1]);
      } else {
        ResultIsLineOrReplacement(line, init);
        if r0 != line {
          var k :| 0 <= k < |init| && r0 == Replacement(init[k]);
          assert ovs[k] == init[k];
        }
      }
    }
  }

  /** When the last override matches the line the earlier ones left, its line is the
      result, whatever the earlier ones did. */
  lemma LastMatchWins(line: string, ovs: seq<Override>, o: Override)
    requires o.name <= ApplyOverrides(line, ovs)
    ensures ApplyOverrides(line, ovs + [o]) == Replacement(o)
  {
    assert (ovs + [o])[..|ovs|] == ovs;
  }

  /** Trying `a` and then `b` is trying `a + b`: every override sees the current line. */
  lemma {:induction false} ApplyConcat(line: string, a: seq<Override>, b: seq<Override>)
    ensures ApplyOverrides(line, a + b) == ApplyOverrides(ApplyOverrides(line, a), b)
    decreases |b|
  {
    if b == [] {
      assert a + b == a;
    } else {
      var b' := b[..|b| - 1];
      assert (a + b)[..|a + b| - 1] == a + b';
      ApplyConcat(line, a, b');
    }
  }

  lemma ApplyTwo(line: string, a: Override, b: Override)
    ensures ApplyOverrides(line, [a, b]) == Step(Step(line, a), b)
  {
    assert [a][..0] == [];
    assert ApplyOverrides(line, [a]) == Step(line, a);
    assert [a, b][..1] == [a];
  }

  /** A later override can match the line an earlier one wrote: with the commented
      entry `; <key>` followed by the bare `<key>` in the list, a commented line ends up
      with the second content. */
  lemma LaterOverrideRematches(key: string, c1: string, c2: string, rest: string)
    requires key != "" && key[0] !in CommentMarkers
    ensures ApplyOverrides("; " + key + rest, [Override("; " + key, c1), Override(key, c2)])
      == key + c2 + "\n"
  {
    var name := "; " + key;
    ApplyTwo(name + rest, Override(name, c1), Override(key, c2));
    assert name <= name + rest;
    TrimCommented(key);
    TrimPlain(key);
    assert Step(name + rest, Override(name, c1)) == key + c1 + "\n";
    assert key <= key + c1 + "\n";
  }

  /** Two commented keys that differ within their common length switch on one line
      each: the sample line of either key becomes that key followed by its content,
      and the other override leaves it alone. */
  lemma ActivatePair(n1: string, n2: string, k1: string, k2: string, c1: string, c2: string, rest: string, i: nat)
    requires n1 == "; " + k1 && n2 == "; " + k2
    requires k1 != "" && k2 != "" && k1[0] !in CommentMarkers && k2[0] !in CommentMarkers
    requires i < |k1| && i < |k2| && k1[i] != k2[i]
    ensures ApplyOverrides(n1 + rest, [Override(n1, c1), Override(n2, c2)]) == k1 + c1 + "\n"
    ensures ApplyOverrides(n2 + rest, [Override(n1, c1), Override(n2, c2)]) == k2 + c2 + "\n"
  {
    var o1, o2 := Override("; " + k1, c1), Override("; " + k2, c2);
    TrimCommented(k1);
    TrimCommented(k2);
    ApplyTwo("; " + k1 + rest, o1, o2);
    ApplyTwo("; " + k2 + rest, o1, o2);
    assert o1.name <= "; " + k1 + rest;
    assert o2.name <= "; " + k2 + rest;
    assert (k1 + c1 + "\n")[0] == k1[0];
    assert !(o2.name <= k1 + c1 + "\n");
    assert ("; " + k2 + rest)[i + 2] == k2[i];
    assert !(o1.name <= "; " + k2 + rest);
  }

  /** A line that exactly one override matches becomes that override's line, provided
      no later override matches the line it wrote. */
  lemma {:induction false} OnlyMatch(line: string, ovs: seq<Override>, k: nat)
    requires k < |ovs| && ovs[k].name <= line
    requires forall j :: 0 <= j < |ovs| && j != k ==> !(ovs[j].name <= line)
    requires forall j :: k < j < |ovs| ==> !(ovs[j].name <= Replacement(ovs[k]))
    ensures ApplyOverrides(line, ovs) == Replacement(ovs[k])
    decreases |ovs|
  {
    var n := |ovs| - 1;
    var init := ovs[..n];
    var r := Replacement(ovs[k]);
    if n == k {
      forall j | 0 <= j < |init| ensures !(init[j].name <= line) {
        assert init[j] == ovs[j];
      }
      NoMatchUnchanged(line, init);
    } else {
      forall j | 0 <= j < |init| && j != k ensures !(init[j].name <= line) {
        assert init[j] == ovs[j];
      }
      forall j | k < j < |init| ensures !(init[j].name <= r) {
        assert init[j] == ovs[j];
      }
      assert init[k] == ovs[k];
      OnlyMatch(line, init, k);
      assert !(ovs[n].name <= r);
    }
  }

  /** A commented override that differs at position `d` from every other override's
      name is the only one to match its own sample line, and none matches the line it
      writes: the line becomes its replacement. */
  lemma Activates(ovs: seq<Override>, k: nat, d: nat, rest: string)
    requires k < |ovs| && d < |ovs[k].name| && TrimLeft(ovs[k].name, CommentMarkers) != ""
    requires forall j :: 0 <= j < |ovs| ==> ovs[j].name != "" && ovs[j].name[0] in CommentMarkers
    requires forall j :: 0 <= j < |ovs| && j != k ==> d < |ovs[j].name| && ovs[j].name[d] != ovs[k].name[d]
    ensures ApplyOverrides(ovs[k].name + rest, ovs) == Replacement(ovs[k])
  {
    assert Replacement(ovs[k])[0] == TrimLeft(ovs[k].name, CommentMarkers)[0];
    forall j | 0 <= j < |ovs| && j != k ensures !(ovs[j].name <= ovs[k].name + rest) {
      assert (ovs[k].name + rest)[d] == ovs[k].name[d];
    }
    OnlyMatch(ovs[k].name + rest, ovs, k);
  }

  /** A `#`-commented key loses its marker. */
  lemma TrimHash(key: string)
    requires key != "" && key[0] !in CommentMarkers
    ensures TrimLeft("#" + key, CommentMarkers) == key
  {
    assert ("#" + key)[1..] == key;
  }

  lemma TrimPlain(key: string)
    requires key != "" && key[0] !in CommentMarkers
    ensures TrimLeft(key, CommentMarkers) == key
  {
  }

  lemma TrimCommented(key: string)
    requires key != "" && key[0] !in CommentMarkers
    ensures TrimLeft("; " + key, CommentMarkers) == key
  {
    var t := "; " + key;
    assert t[0] == ';' && t[1..] == " " + key;
    assert (" " + key)[0] == ' ' && (" " + key)[1..] == key;
    TrimPlain(key);
  }

  // ---------------------------------------------------------------------------
  // Properties of the whole rendering
  // ---------------------------------------------------------------------------

  lemma {:induction false} RenderLinesIdentity(ls: seq<string>)
    ensures RenderLines(ls, []) == Concat(ls)
    decreases |ls|
  {
    if ls != [] {
      var init := ls[..|ls| - 1];
      RenderLinesIdentity(init);
      ConcatSnoc(init, ls[|ls| - 1]);
      assert init + [ls[|ls| - 1]] == ls;
    }
  }

  /** With no overrides the output is the input up to and including its last newline;
      the unterminated rest is all that is lost. */
  lemma EmptyOverridesKeepPrefix(input: string)
    ensures Render(input, []) + Unterminated(input) == input
    ensures Render(input, []) <= input
  {
    RenderLinesIdentity(Lines(input));
    LinesCover(input);
  }

  /** The output is the processed lines, concatenated in input order. */
  lemma {:induction false} RenderLinesCons(l: string, ls: seq<string>, ovs: seq<Override>)
    ensures RenderLines([l] + ls, ovs) == ApplyOverrides(l, ovs) + RenderLines(ls, ovs)
    decreases |ls|
  {
    if ls == [] {
      assert [l] + ls == [l];
      assert [l][..0] == [];
    } else {
      var init := ls[..|ls| - 1];
      assert ([l] + ls)[..|ls|] == [l] + init;
      RenderLinesCons(l, init, ovs);
    }
  }

  /** Rendering a text is rendering its first line and then the rest: the loop
      processes the lines in order and never looks back. */
  lemma RenderFirstLine(l: string, rest: string, ovs: seq<Override>)
    requires IsLine(l)
    ensures Render(l + rest, ovs) == ApplyOverrides(l, ovs) + Render(rest, ovs)
  {
    LinesCons(l, rest);
    RenderLinesCons(l, Lines(rest), ovs);
  }

  /** A text without a newline renders to nothing. */
  lemma RenderUnterminated(s: string, ovs: seq<Override>)
    requires '\n' !in s
    ensures Render(s, ovs) == ""
  {
    LinesEmpty(s);
  }
}

/** cmd/dcrinstall/isrunning_windows.go: the process list of a Toolhelp snapshot, and
    the search of that list for an executable name. */
module IsRunningWindows {
  import opened Wrappers
  import opened GoStrings

  newtype uint16 = x: int | 0 <= x < 0x1_0000
  newtype uint32 = x: int | 0 <= x < 0x1_0000_0000

  /** MAX_PATH: the length of `PROCESSENTRY32.szExeFile`. */
  const MaxPath: nat := 260

  /** syscall.ERROR_NO_MORE_FILES. */
  const ErrorNoMoreFiles: uint32 := 18

  datatype WindowsProcess = WindowsProcess(processID: int, parentProcessID: int, exe: string)

  // ---------------------------------------------------------------------------
  // syscall.UTF16ToString
  // ---------------------------------------------------------------------------

  predicate IsHighSurrogate(u: uint16) { 0xD800 <= u < 0xDC00 }
  predicate IsLowSurrogate(u: uint16) { 0xDC00 <= u < 0xE000 }

  /** `utf16.Decode`: a valid surrogate pair is one code point, a lone surrogate is
      U+FFFD and every other unit is itself. */
  function Decode(s: seq<uint16>): (r: string)
    ensures |r| <= |s|
    decreases |s|
  {
    if s == [] then ""
    else if |s| >= 2 && IsHighSurrogate(s[0]) && IsLowSurrogate(s[1]) then
      var cp := ((s[0] as int - 0xD800) * 0x400 + (s[1] as int - 0xDC00)) + 0x1_0000;
      [cp as char] + Decode(s[2..])
    else if 0xD800 <= s[0] < 0xE000 then ['\U{FFFD}'] + Decode(s[1..])
    else [s[0] as int as char] + Decode(s[1..])
  }

  /** Index of the first 0 in `s`, or `|s|`. */
  function FirstZero(s: seq<uint16>): (z: nat)
    ensures z <= |s| && (z < |s| ==> s[z] == 0)
    ensures forall k :: 0 <= k < z ==> s[k] != 0
  {
    if s == [] then 0 else if s[0] == 0 then 0 else 1 + FirstZero(s[1..])
  }

  /** `syscall.UTF16ToString`: decoding stops at the first 0. */
  function UTF16ToString(s: seq<uint16>): string {
    Decode(s[..FirstZero(s)])
  }

  // ---------------------------------------------------------------------------
  // newWindowsProcess
  // ---------------------------------------------------------------------------

  /** The buffer Process32First and Process32Next fill in, reused for every entry. */
  class ProcessEntry {
    var processID: uint32
    var parentProcessID: uint32
    const exeFile: array<uint16>

    constructor ()
      ensures exeFile.Length == MaxPath && fresh(exeFile)
      ensures forall k :: 0 <= k < MaxPath ==> exeFile[k] == 0
      ensures processID == 0 && parentProcessID == 0
    {
      processID, parentProcessID := 0, 0;
      exeFile := new uint16[MaxPath](_ => 0);
    }
  }

  /** The scan of `newWindowsProcess` from `end` on: the first even index holding 0,
      or `None` when the index runs past the buffer (a run-time panic). */
  function EvenZero(buf: seq<uint16>, end: nat): (r: Option<nat>)
    requires end % 2 == 0
    ensures r.Some? ==> end <= r.value < |buf| && r.value % 2 == 0 && buf[r.value] == 0
    ensures r.Some? ==> forall k :: end <= k < r.value && k % 2 == 0 ==> buf[k] != 0
    ensures r.None? ==> forall k :: end <= k < |buf| && k % 2 == 0 ==> buf[k] != 0
    decreases |buf| - end
  {
    if end >= |buf| then None
    else if buf[end] == 0 then Some(end)
    else EvenZero(buf, end + 2)
  }

  /** What `newWindowsProcess` builds from an entry, or `None` for the panic. */
  function ProcessOf(pid: uint32, ppid: uint32, buf: seq<uint16>): Option<WindowsProcess> {
    match EvenZero(buf, 0)
    case None => None
    case Some(end) => Some(WindowsProcess(pid as int, ppid as int, UTF16ToString(buf[..end])))
  }

  /** `newWindowsProcess(e)`: `end` moves in steps of two until `ExeFile[end]` is 0; the
      name is the decoding of `ExeFile[:end]`. An index past the buffer, which Go
      turns into a panic, gives `None`. */
  method NewWindowsProcess(e: ProcessEntry) returns (r: Option<WindowsProcess>)
    ensures r == ProcessOf(e.processID, e.parentProcessID, e.exeFile[..])
  {
    var end := 0;
    while true
      invariant end % 2 == 0
      invariant EvenZero(e.exeFile[..], 0) == EvenZero(e.exeFile[..], end)
      decreases e.exeFile.Length - end
    {
      if end >= e.exeFile.Length {
        return None;
      }
      if e.exeFile[end] == 0 {
        break;
      }
      end := end + 2;
    }
    return Some(WindowsProcess(e.processID as int, e.parentProcessID as int,
                               UTF16ToString(e.exeFile[..end])));
  }

  /** Cutting the buffer at a 0 does not change the name: the step of two is harmless
      whenever it finds a 0 at all. */
  lemma ProcessOfIsWholeName(pid: uint32, ppid: uint32, buf: seq<uint16>)
    requires ProcessOf(pid, ppid, buf).Some?
    ensures ProcessOf(pid, ppid, buf).value.exe == UTF16ToString(buf)
  {
    var end := EvenZero(buf, 0).value;
    CutAtZero(buf, end);
  }

  lemma CutAtZero(buf: seq<uint16>, n: nat)
    requires n < |buf| && buf[n] == 0
    ensures UTF16ToString(buf[..n]) == UTF16ToString(buf)
  {
    var z := FirstZero(buf);
    assert z <= n;
    FirstZeroOfPrefix(buf, n, z);
    assert buf[..n][..z] == buf[..z];
  }

  lemma {:induction false} FirstZeroOfPrefix(buf: seq<uint16>, n: nat, z: nat)
    requires z <= n <= |buf| && z == FirstZero(buf)
    ensures FirstZero(buf[..n]) == z
    decreases n
  {
    if buf != [] && buf[0] != 0 && n > 0 {
      assert buf[..n][1..] == buf[1..][..n - 1];
      FirstZeroOfPrefix(buf[1..], n - 1, z - 1);
    }
  }

  /** The scan panics exactly when every even index holds a unit: a name with an odd
      number of units whose terminator is the buffer's last element. */
  lemma PanicsIff(pid: uint32, ppid: uint32, buf: seq<uint16>)
    ensures ProcessOf(pid, ppid, buf).None? <==> forall k :: 0 <= k < |buf| && k % 2 == 0 ==> buf[k] != 0
  {
  }

  // ---------------------------------------------------------------------------
  // processes
  // ---------------------------------------------------------------------------

  /** What one Process32First or Process32Next call leaves in the entry. */
  datatype Snapshot = Snapshot(processID: uint32, parentProcessID: uint32, exeFile: seq<uint16>)

  predicate Fits(s: Snapshot) { |s.exeFile| == MaxPath }

  /** The process `newWindowsProcess` makes of a filled entry. */
  function Build(s: Snapshot): Option<WindowsProcess> {
    ProcessOf(s.processID, s.parentProcessID, s.exeFile)
  }

  datatype Error =
    | Sys(errno: uint32)  // an error of the Toolhelp calls
    | IndexOutOfRange     // the panic of `newWindowsProcess`

  /** The loop of `processes` from the entry `cur` on, with the calls to
      Process32Next still to come in `nexts`. */
  function Collect(acc: seq<WindowsProcess>, cur: Snapshot, nexts: seq<Result<Snapshot, uint32>>)
    : Result<seq<WindowsProcess>, Error>
    decreases |nexts|
  {
    match Build(cur)
    case None => Err(IndexOutOfRange)
    case Some(p) =>
      if nexts == [] then Ok(acc + [p])
      else match nexts[0]
        case Err(e) => if e == ErrorNoMoreFiles then Ok(acc + [p]) else Err(Sys(e))
        case Ok(s) => Collect(acc + [p], s, nexts[1..])
  }

  /** `processes()`: `snapshot` is the result of CreateToolhelp32Snapshot, `first` that
      of Process32First and `nexts` those of the Process32Next calls in order, the
      enumeration ending with an error. */
  function Processes(snapshot: Option<uint32>, first: Result<Snapshot, uint32>,
                     nexts: seq<Result<Snapshot, uint32>>): Result<seq<WindowsProcess>, Error>
  {
    if snapshot.Some? then Err(Sys(snapshot.value))
    else if first.Err? then Err(Sys(first.error))
    else Collect([], first.value, nexts)
  }

  predicate AllFit(nexts: seq<Result<Snapshot, uint32>>) {
    forall k :: 0 <= k < |nexts| && nexts[k].Ok? ==> Fits(nexts[k].value)
  }

  /** The enumeration loop over the one reused entry. */
  method CollectProcesses(first: Snapshot, nexts: seq<Result<Snapshot, uint32>>)
    returns (r: Result<seq<WindowsProcess>, Error>)
    requires Fits(first) && AllFit(nexts)
    requires exists k :: 0 <= k < |nexts| && nexts[k].Err?
    ensures r == Collect([], first, nexts)
  {
    var entry := new ProcessEntry();
    Fill(entry, first);
    var results: seq<WindowsProcess> := [];
    var rest := nexts;
    while true
      invariant entry.exeFile.Length == MaxPath
      invariant AllFit(rest)
      invariant Collect([], first, nexts)
        == Collect(results, Snapshot(entry.processID, entry.parentProcessID, entry.exeFile[..]), rest)
      invariant exists k :: 0 <= k < |rest| && rest[k].Err?
      decreases |rest|
    {
      var p := NewWindowsProcess(entry);
      if p.None? {
        return Err(IndexOutOfRange);
      }
      results := results + [p.value];
      var n := rest[0];
      if n.Err? {
        if n.error == ErrorNoMoreFiles {
          return Ok(results);
        }
        return Err(Sys(n.error));
      }
      assert forall k :: 0 < k < |rest| ==> rest[1..][k - 1] == rest[k];
      rest := rest[1..];
      Fill(entry, n.value);
    }
  }

  /** The system call writing a snapshot into the entry. */
  method Fill(entry: ProcessEntry, s: Snapshot)
    requires entry.exeFile.Length == MaxPath && Fits(s)
    modifies entry, entry.exeFile
    ensures entry.processID == s.processID && entry.parentProcessID == s.parentProcessID
    ensures entry.exeFile[..] == s.exeFile
  {
    entry.processID, entry.parentProcessID := s.processID, s.parentProcessID;
    forall k | 0 <= k < MaxPath {
      entry.exeFile[k] := s.exeFile[k];
    }
  }

  /** The list keeps the enumeration order: the entries up to the end of the
      enumeration, each as `newWindowsProcess` builds it. */
  lemma {:induction false} CollectOrder(acc: seq<WindowsProcess>, cur: Snapshot,
                                        nexts: seq<Result<Snapshot, uint32>>, k: nat)
    requires k < |nexts| && nexts[k] == Err(ErrorNoMoreFiles)
    requires forall j :: 0 <= j < k ==> nexts[j].Ok?
    requires Build(cur).Some?
    requires forall j :: 0 <= j < k ==> Build(nexts[j].value).Some?
    ensures var r := Collect(acc, cur, nexts);
      r.Ok? && |r.value| == |acc| + k + 1 && r.value[..|acc|] == acc
      && r.value[|acc|] == Build(cur).value
      && (forall j :: 0 <= j < k ==> r.value[|acc| + 1 + j] == Build(nexts[j].value).value)
    decreases |nexts|
  {
    var p := Build(cur).value;
    if k > 0 {
      var s := nexts[0].value;
      assert forall j :: 0 <= j < k - 1 ==> nexts[1..][j] == nexts[j + 1];
      CollectOrder(acc + [p], s, nexts[1..], k - 1);
      var r := Collect(acc + [p], s, nexts[1..]);
      assert Collect(acc, cur, nexts) == r;
      assert r.value[..|acc| + 1][..|acc|] == r.value[..|acc|];
      forall j | 0 <= j < k ensures r.value[|acc| + 1 + j] == Build(nexts[j].value).value
      {
        if j > 0 {
          assert nexts[j] == nexts[1..][j - 1];
        } else {
          assert |acc + [p]| == |acc| + 1;
        }
      }
    }
  }

  /** An error other than the end of the enumeration discards what was collected. */
  lemma {:induction false} CollectFails(acc: seq<WindowsProcess>, cur: Snapshot,
                                        nexts: seq<Result<Snapshot, uint32>>, k: nat)
    requires k < |nexts| && nexts[k].Err? && nexts[k].error != ErrorNoMoreFiles
    requires forall j :: 0 <= j < k ==> nexts[j].Ok?
    requires Build(cur).Some?
    requires forall j :: 0 <= j < k ==> Build(nexts[j].value).Some?
    ensures Collect(acc, cur, nexts) == Err(Sys(nexts[k].error))
    decreases |nexts|
  {
    if k > 0 {
      var p := Build(cur).value;
      assert forall j :: 0 <= j < k - 1 ==> nexts[1..][j] == nexts[j + 1];
      CollectFails(acc + [p], nexts[0].value, nexts[1..], k - 1);
    }
  }

  // ---------------------------------------------------------------------------
  // findProcessByName and isRunning
  // ---------------------------------------------------------------------------

  /** `strings.ToLower(a) == strings.ToLower(b)`. */
  predicate SameName(a: string, b: string) { ToLower(a) == ToLower(b) }

  /** `findProcessByName`: the first process whose name is `name` up to case. */
  method FindProcessByName(ps: seq<WindowsProcess>, name: string) returns (r: Option<WindowsProcess>)
    ensures r.None? <==> forall k :: 0 <= k < |ps| ==> !SameName(ps[k].exe, name)
    ensures r.Some? ==> exists k :: (0 <= k < |ps| && ps[k] == r.value && SameName(ps[k].exe, name)
                                     && forall j :: 0 <= j < k ==> !SameName(ps[j].exe, name))
  {
    for i := 0 to |ps|
      invariant forall j :: 0 <= j < i ==> !SameName(ps[j].exe, name)
    {
      if ToLower(ps[i].exe) == ToLower(name) {
        return Some(ps[i]);
      }
    }
    return None;
  }

  /** `isRunning(name)`: the process list, searched for `name.exe`. */
  method IsRunning(name: string, snapshot: Option<uint32>, first: Result<Snapshot, uint32>,
                   nexts: seq<Result<Snapshot, uint32>>) returns (r: Result<bool, Error>)
    requires first.Ok? ==> Fits(first.value)
    requires AllFit(nexts)
    requires exists k :: 0 <= k < |nexts| && nexts[k].Err?
    ensures var ps := Processes(snapshot, first, nexts);
      (ps.Err? ==> r == Err(ps.error))
      && (ps.Ok? ==> r == Ok(exists k :: 0 <= k < |ps.value| && SameName(ps.value[k].exe, name + ".exe")))
  {
    var ps: Result<seq<WindowsProcess>, Error>;
    if snapshot.Some? {
      ps := Err(Sys(snapshot.value));
    } else if first.Err? {
      ps := Err(Sys(first.error));
    } else {
      ps := CollectProcesses(first.value, nexts);
    }
    if ps.Err? {
      return Err(ps.error);
    }
    var p := FindProcessByName(ps.value, name + ".exe");
    if p.None? {
      return Ok(false);
    }
    return Ok(true);
  }

  /** Names are compared up to ASCII case. */
  lemma SameNameUpToCase(a: string)
    ensures SameName(ToUpper(a), a)
  {
    assert forall k :: 0 <= k < |a| ==> LowerChar(UpperChar(a[k])) == LowerChar(a[k]);
  }
}

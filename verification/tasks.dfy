/** Task validation, the build environment, the per-run path templates and the manual trigger
    of logic/task.go. The host's `runtime.GOOS`/`runtime.GOARCH`, the process environment and
    the local IP lookup are parameters. */
module Tasks {
  import opened Results
  import opened Strings
  import opened Model

  datatype TaskError =
    | BranchNotSet
    | MainFileNotSet
    | DestFileNotSet
    | GoosNotAllowed
    | GoarchNotAllowed
    | TaskNotFound
    | ProjectNotFound
    | StoreError

  const AllowedOs: set<string> := {"linux", "windows", "darwin"}
  const AllowedArch: set<string> := {"386", "amd64", "arm64"}

  /** A task as it may be stored: every required field set and a target inside the allow-lists. */
  predicate ValidTask(t: Task)
  {
    && t.branch != "" && t.mainFile != "" && t.destFile != ""
    && t.destOs in AllowedOs && t.destArch in AllowedArch
  }

  /** `checkTask`: the three required fields are checked in order, then the target OS (empty
      means the host's), then the target architecture (empty means the host's). */
  function CheckTask(t: Task, hostOs: string, hostArch: string): (r: Result<Task, TaskError>)
    ensures t.branch == "" ==> r == Err(BranchNotSet)
    ensures t.branch != "" && t.mainFile == "" ==> r == Err(MainFileNotSet)
    ensures t.branch != "" && t.mainFile != "" && t.destFile == "" ==> r == Err(DestFileNotSet)
    ensures r == Err(GoosNotAllowed) <==>
      t.branch != "" && t.mainFile != "" && t.destFile != "" && t.destOs != "" && t.destOs !in AllowedOs
    ensures r == Err(GoarchNotAllowed) <==>
      && t.branch != "" && t.mainFile != "" && t.destFile != ""
      && (t.destOs == "" || t.destOs in AllowedOs)
      && t.destArch != "" && t.destArch !in AllowedArch
    ensures r.Ok? <==>
      && t.branch != "" && t.mainFile != "" && t.destFile != ""
      && (t.destOs == "" || t.destOs in AllowedOs)
      && (t.destArch == "" || t.destArch in AllowedArch)
    ensures r.Ok? ==>
      && r.value.(destOs := t.destOs, destArch := t.destArch) == t
      && r.value.destOs == (if t.destOs == "" then hostOs else t.destOs)
      && r.value.destArch == (if t.destArch == "" then hostArch else t.destArch)
  {
    if t.branch == "" then Err(BranchNotSet)
    else if t.mainFile == "" then Err(MainFileNotSet)
    else if t.destFile == "" then Err(DestFileNotSet)
    else if t.destOs != "" && t.destOs !in AllowedOs then Err(GoosNotAllowed)
    else if t.destArch != "" && t.destArch !in AllowedArch then Err(GoarchNotAllowed)
    else
      Ok(t.(destOs := if t.destOs == "" then hostOs else t.destOs,
            destArch := if t.destArch == "" then hostArch else t.destArch))
  }

  /** On a server whose own platform is in the allow-lists, an accepted task is valid, and a
      valid task is accepted unchanged: validation is idempotent. */
  lemma CheckTaskValid(t: Task, hostOs: string, hostArch: string)
    requires hostOs in AllowedOs && hostArch in AllowedArch
    ensures CheckTask(t, hostOs, hostArch).Ok? ==> ValidTask(CheckTask(t, hostOs, hostArch).value)
    ensures ValidTask(t) ==> CheckTask(t, hostOs, hostArch) == Ok(t)
    ensures CheckTask(t, hostOs, hostArch).Ok? ==>
      var t' := CheckTask(t, hostOs, hostArch).value;
      CheckTask(t', hostOs, hostArch) == Ok(t')
  {
  }

  /** `AddTask`: validation, then the owning project must exist, then the insert. */
  function AddTask(st: Store, t: Task, hostOs: string, hostArch: string, newId: int): (r: Result<Store, TaskError>)
    ensures r.Ok? <==> CheckTask(t, hostOs, hostArch).Ok? && GetProject(st, t.projectId).Some?
    ensures CheckTask(t, hostOs, hostArch).Err? ==> r == Err(CheckTask(t, hostOs, hostArch).error)
    ensures r.Ok? ==>
      && r.value == st.(tasks := st.tasks + [CheckTask(t, hostOs, hostArch).value.(id := newId)])
      && r.value.tasks[|st.tasks|].branch != "" && r.value.tasks[|st.tasks|].mainFile != ""
      && r.value.tasks[|st.tasks|].destFile != ""
  {
    match CheckTask(t, hostOs, hostArch)
    case Err(e) => Err(e)
    case Ok(checked) =>
      if GetProject(st, t.projectId).None? then Err(ProjectNotFound)
      else Ok(st.(tasks := st.tasks + [checked.(id := newId)]))
  }

  /** Every stored task is valid. */
  predicate TasksValid(st: Store)
  {
    forall t :: t in st.tasks ==> ValidTask(t)
  }

  /** On a server whose own platform is in the allow-lists, adding a task keeps every stored
      task valid: the defaults filled in for an empty OS or arch are allowed values. */
  lemma AddTaskKeepsTasksValid(st: Store, t: Task, hostOs: string, hostArch: string, newId: int)
    requires hostOs in AllowedOs && hostArch in AllowedArch
    requires TasksValid(st)
    ensures AddTask(st, t, hostOs, hostArch, newId).Ok? ==> TasksValid(AddTask(st, t, hostOs, hostArch, newId).value)
  {
    if AddTask(st, t, hostOs, hostArch, newId).Ok? {
      CheckTaskValid(t, hostOs, hostArch);
      var added := CheckTask(t, hostOs, hostArch).value.(id := newId);
      assert ValidTask(added);
      var st' := AddTask(st, t, hostOs, hostArch, newId).value;
      forall u | u in st'.tasks
        ensures ValidTask(u)
      {
        assert u in st.tasks || u == added;
      }
    }
  }

  /** The line scanner drops one '\r' before the line end. */
  function DropCR(s: string): string
  {
    if |s| > 0 && s[|s| - 1] == '\r' then s[..|s| - 1] else s
  }

  /** `readline`: the lines of `s` as a line scanner yields them. A final '\n' does not start
      an empty line, and a '\r' just before a line end is dropped. */
  function ReadLines(s: string): (lines: seq<string>)
    ensures s == "" <==> lines == []
    ensures forall k :: 0 <= k < |lines| ==> '\n' !in lines[k]
    ensures |lines| <= |s|
    decreases |s|
  {
    if s == "" then []
    else
      var i := IndexOf(s, '\n');
      if i < 0 then [DropCR(s)]
      else
        var rest := ReadLines(s[i + 1..]);
        var lines := [DropCR(s[..i])] + rest;
        assert forall k :: 1 <= k < |lines| ==> lines[k] == rest[k - 1];
        lines
  }

  /** Lines written out, each followed by '\n'. */
  function Unlines(lines: seq<string>): string
  {
    if |lines| == 0 then "" else lines[0] + "\n" + Unlines(lines[1..])
  }

  /** Scanning newline-terminated lines gives the same lines back. */
  lemma {:induction false} ReadLinesUnlines(lines: seq<string>)
    requires forall k :: 0 <= k < |lines| ==> '\n' !in lines[k] && DropCR(lines[k]) == lines[k]
    ensures ReadLines(Unlines(lines)) == lines
    decreases |lines|
  {
    if |lines| > 0 {
      var l := lines[0];
      UnlinesFirstLine(l, lines[1..]);
      ReadLinesUnlines(lines[1..]);
      assert lines == [l] + lines[1..];
    }
  }

  /** The first line of a written-out list ends at the first '\n'. */
  lemma UnlinesFirstLine(l: string, rest: seq<string>)
    requires '\n' !in l && DropCR(l) == l
    ensures var s := Unlines([l] + rest);
      && s != "" && IndexOf(s, '\n') == |l|
      && DropCR(s[..|l|]) == l && s[|l| + 1..] == Unlines(rest)
  {
    var s := Unlines([l] + rest);
    assert ([l] + rest)[1..] == rest;
    assert s == l + ("\n" + Unlines(rest));
    assert s[..|l|] == l;
    assert s[|l|] == '\n';
    assert s[|l| + 1..] == Unlines(rest);
  }

  /** Without carriage returns, writing the scanned lines back out reproduces the input, up to
      the final newline the scanner does not report. */
  lemma {:induction false} UnlinesReadLines(s: string)
    requires '\r' !in s
    ensures Unlines(ReadLines(s)) == UnlinesTarget(s)
    decreases |s|
  {
    if s != "" {
      var i := IndexOf(s, '\n');
      if i < 0 {
        assert ReadLines(s) == [s] by {
          assert DropCR(s) == s;
        }
        assert s[|s| - 1] in s;
      } else {
        var rest := s[i + 1..];
        assert '\r' !in rest;
        UnlinesReadLines(rest);
        UnlinesReadLinesStep(s, i);
      }
    }
  }

  /** What writing the scanned lines back out yields: the input, newline-terminated. */
  function UnlinesTarget(s: string): string
  {
    if s == "" || s[|s| - 1] == '\n' then s else s + "\n"
  }

  lemma UnlinesReadLinesStep(s: string, i: int)
    requires '\r' !in s && s != "" && i == IndexOf(s, '\n') && 0 <= i
    requires Unlines(ReadLines(s[i + 1..])) == UnlinesTarget(s[i + 1..])
    ensures Unlines(ReadLines(s)) == UnlinesTarget(s)
  {
    var head, rest := s[..i], s[i + 1..];
    ReadLinesAtNewline(s, i);
    UnlinesCons(head, ReadLines(rest));
    SplitAtNewline(s, i);
    TargetCons(head, rest);
  }

  lemma ReadLinesAtNewline(s: string, i: int)
    requires '\r' !in s && s != "" && i == IndexOf(s, '\n') && 0 <= i
    ensures ReadLines(s) == [s[..i]] + ReadLines(s[i + 1..])
  {
    assert '\r' !in s[..i];
    assert DropCR(s[..i]) == s[..i];
  }

  lemma SplitAtNewline(s: string, i: int)
    requires 0 <= i < |s| && s[i] == '\n'
    ensures s == s[..i] + "\n" + s[i + 1..]
  {
    assert s == s[..i] + [s[i]] + s[i + 1..];
  }

  lemma TargetCons(head: string, rest: string)
    ensures head + "\n" + UnlinesTarget(rest) == UnlinesTarget(head + "\n" + rest)
  {
    var s := head + "\n" + rest;
    if rest == "" {
      assert s[|s| - 1] == '\n';
    } else {
      assert s[|s| - 1] == rest[|rest| - 1];
      if rest[|rest| - 1] != '\n' {
        assert head + "\n" + (rest + "\n") == s + "\n";
      }
    }
  }

  lemma UnlinesCons(head: string, rest: seq<string>)
    ensures Unlines([head] + rest) == head + "\n" + Unlines(rest)
  {
    assert ([head] + rest)[1..] == rest;
  }

  const GoProxy: string := "https://goproxy.cn,direct"

  /** `GetGoPath`: the install directory of a toolchain version. */
  function ToolchainPath(cfg: Config, version: string): string
  {
    PathJoin(cfg.goEnvPath, version)
  }

  /** The seven variables `getEnv` appends after the inherited environment. */
  function FixedEnv(cfg: Config, p: Project, t: Task): (vars: seq<string>)
    ensures |vars| == 7
  {
    [ "GO111MODULE=" + (if p.goMod then "on" else "off"),
      "GOBIN=" + ToolchainPath(cfg, p.goVersion),
      "GOPATH=" + p.workSpace,
      "GOPROXY=" + GoProxy,
      "GOCACHE=" + PathJoin(p.workSpace, ".cache"),
      "GOOS=" + t.destOs,
      "GOARCH=" + t.destArch ]
  }

  /** `getEnv`: the inherited environment, the fixed toolchain variables, then every project
      line, then every task line. Lines are passed on as they are, with or without '='. */
  function GetEnv(base: seq<string>, cfg: Config, p: Project, t: Task): (env: seq<string>)
    ensures |env| == |base| + 7 + |ReadLines(p.env)| + |ReadLines(t.env)|
    ensures env[..|base|] == base
    ensures env[|base| + 7..] == ReadLines(p.env) + ReadLines(t.env)
  {
    var env := base + FixedEnv(cfg, p, t) + ReadLines(p.env) + ReadLines(t.env);
    FourParts(base, FixedEnv(cfg, p, t), ReadLines(p.env), ReadLines(t.env));
    env
  }

  /** The first of four joined lists, and the last two, are found where they were put. */
  lemma FourParts(w: seq<string>, x: seq<string>, y: seq<string>, z: seq<string>)
    ensures var s := w + x + y + z;
      |s| == |w| + |x| + |y| + |z| && s[..|w|] == w && s[|w| + |x|..] == y + z
  {
    var s := w + x + y + z;
    assert s[|w| + |x|..] == y + z by {
      forall k | 0 <= k < |y| + |z| ensures s[|w| + |x| + k] == (y + z)[k] {
      }
    }
  }

  /** The value a child process sees for `key`: the last `key=` entry wins, as duplicate keys
      are resolved when a command is started. */
  function LastValue(env: seq<string>, key: string): Option<string>
  {
    if |env| == 0 then None
    else
      var last := env[|env| - 1];
      if key + "=" <= last then Some(last[|key| + 1..]) else LastValue(env[..|env| - 1], key)
  }

  lemma {:induction false} LastValueAppend(a: seq<string>, b: seq<string>, key: string)
    ensures LastValue(a + b, key) == if LastValue(b, key).Some? then LastValue(b, key) else LastValue(a, key)
    decreases |b|
  {
    if |b| == 0 {
      assert a + b == a;
    } else {
      assert (a + b)[..|a + b| - 1] == a + b[..|b| - 1];
      LastValueAppend(a, b[..|b| - 1], key);
    }
  }

  /** Task lines override project lines, which override the fixed variables, which override
      the inherited environment. */
  lemma GetEnvPrecedence(base: seq<string>, cfg: Config, p: Project, t: Task, key: string)
    ensures var env := GetEnv(base, cfg, p, t);
      var fromTask, fromProject := LastValue(ReadLines(t.env), key), LastValue(ReadLines(p.env), key);
      var fromFixed := LastValue(FixedEnv(cfg, p, t), key);
      LastValue(env, key) ==
        if fromTask.Some? then fromTask
        else if fromProject.Some? then fromProject
        else if fromFixed.Some? then fromFixed
        else LastValue(base, key)
  {
    var fixed, pl, tl := FixedEnv(cfg, p, t), ReadLines(p.env), ReadLines(t.env);
    LastValueAppend(base + fixed + pl, tl, key);
    LastValueAppend(base + fixed, pl, key);
    LastValueAppend(base, fixed, key);
  }

  /** Unless an env line overrides it, the child builds for the task's target OS and arch. */
  lemma GetEnvTarget(base: seq<string>, cfg: Config, p: Project, t: Task)
    requires LastValue(ReadLines(p.env), "GOOS").None? && LastValue(ReadLines(t.env), "GOOS").None?
    requires LastValue(ReadLines(p.env), "GOARCH").None? && LastValue(ReadLines(t.env), "GOARCH").None?
    ensures LastValue(GetEnv(base, cfg, p, t), "GOOS") == Some(t.destOs)
    ensures LastValue(GetEnv(base, cfg, p, t), "GOARCH") == Some(t.destArch)
  {
    GetEnvPrecedence(base, cfg, p, t, "GOOS");
    GetEnvPrecedence(base, cfg, p, t, "GOARCH");
    var fixed := FixedEnv(cfg, p, t);
    assert fixed[6] == "GOARCH=" + t.destArch;
    assert "GOARCH=" <= fixed[6];
    assert fixed[5] == "GOOS=" + t.destOs;
    assert "GOOS=" <= fixed[5];
    assert fixed[6][2] == 'A';
    assert !("GOOS=" <= fixed[6]);
  }

  /** The run's stdout log: `RecordPath/Name/Branch/DestFile.<run id>.out.log`. */
  function OutLogPath(cfg: Config, p: Project, t: Task, runId: int): string
  {
    PathJoin(PathJoin(PathJoin(cfg.recordPath, p.name), t.branch), t.destFile + "." + IntToString(runId) + ".out.log")
  }

  /** The artifact `go build -o` writes: `DestPath/Name/Branch/DestFile`. */
  function ArtifactPath(cfg: Config, p: Project, t: Task): string
  {
    PathJoin(PathJoin(PathJoin(cfg.destPath, p.name), t.branch), t.destFile)
  }

  /** The local address, or 127.0.0.1 when it cannot be found. */
  function HostOrLoopback(ip: Option<string>): string
  {
    match ip
    case Some(a) => a
    case None => "127.0.0.1"
  }

  /** The artifact's download URL: `http://<ip>:<port>/output/Name/Branch/DestFile`. */
  function PublishUrl(cfg: Config, ip: Option<string>, p: Project, t: Task): string
  {
    "http://" + HostOrLoopback(ip) + ":" + IntToString(cfg.port) + "/output/" + p.name + "/" + t.branch + "/" + t.destFile
  }

  lemma PathJoinRightCancel(a: string, x: string, y: string)
    requires x != "" && y != ""
    requires PathJoin(a, x) == PathJoin(a, y)
    ensures x == y
  {
    if a != "" {
      assert (a + "/" + x)[|a| + 1..] == x;
      assert (a + "/" + y)[|a| + 1..] == y;
    }
  }

  /** Two runs of the same task never share a log file. */
  lemma OutLogPathDistinct(cfg: Config, p: Project, t: Task, id1: int, id2: int)
    requires OutLogPath(cfg, p, t, id1) == OutLogPath(cfg, p, t, id2)
    ensures id1 == id2
  {
    var dir := PathJoin(PathJoin(cfg.recordPath, p.name), t.branch);
    var head := t.destFile + ".";
    var f1 := head + IntToString(id1) + ".out.log";
    var f2 := head + IntToString(id2) + ".out.log";
    PathJoinRightCancel(dir, f1, f2);
    var n1, n2 := IntToString(id1), IntToString(id2);
    assert |n1| == |n2|;
    assert f1[|head|..|head| + |n1|] == n1;
    assert f2[|head|..|head| + |n2|] == n2;
    IntToStringInjective(id1, id2);
  }

  /** The URL points at the artifact: the `/output/` route serves `DestPath`, and the URL and
      the artifact path share the same `Name/Branch/DestFile` tail. */
  lemma PublishUrlServesArtifact(cfg: Config, ip: Option<string>, p: Project, t: Task)
    requires cfg.destPath != "" && p.name != "" && t.branch != "" && t.destFile != ""
    ensures var rel := p.name + "/" + t.branch + "/" + t.destFile;
      && ArtifactPath(cfg, p, t) == cfg.destPath + "/" + rel
      && PublishUrl(cfg, ip, p, t) == "http://" + HostOrLoopback(ip) + ":" + IntToString(cfg.port) + "/output/" + rel
      && (ip.None? ==> HostOrLoopback(ip) == "127.0.0.1")
  {
    var d := cfg.destPath;
    assert ArtifactPath(cfg, p, t) == d + "/" + p.name + "/" + t.branch + "/" + t.destFile;
    JoinTail(d + "/", p.name, t.branch, t.destFile);
    JoinTail("http://" + HostOrLoopback(ip) + ":" + IntToString(cfg.port) + "/output/", p.name, t.branch, t.destFile);
  }

  /** Appending the three parts of a `Name/Branch/DestFile` tail one by one appends the tail. */
  lemma JoinTail(x: string, a: string, b: string, c: string)
    ensures x + a + "/" + b + "/" + c == x + (a + "/" + b + "/" + c)
  {
    assert x + a + "/" + b + "/" + c == x + (a + "/" + b + "/" + c) by {
      var l, r := x + a + "/" + b + "/" + c, x + (a + "/" + b + "/" + c);
      assert |l| == |r|;
      forall k | 0 <= k < |l| ensures l[k] == r[k] {
      }
    }
  }

  /** `StartTask`: the task and its project must exist; then one run is inserted in `Init`. */
  function StartTask(st: Store, taskId: int, runId: int): (r: Result<Store, TaskError>)
    ensures GetTask(st, taskId).None? ==> r == Err(TaskNotFound)
    ensures GetTask(st, taskId).Some? && GetProject(st, GetTask(st, taskId).value.projectId).None? ==>
      r == Err(ProjectNotFound)
    ensures r.Ok? <==>
      && GetTask(st, taskId).Some? && GetProject(st, GetTask(st, taskId).value.projectId).Some?
      && !RunIdTaken(st.runs, runId)
    ensures r.Ok? ==>
      && r.value == st.(runs := st.runs + [NewRun(runId, taskId)])
      && r.value.runs[|st.runs|].status == Init
  {
    match GetTask(st, taskId)
    case None => Err(TaskNotFound)
    case Some(tk) =>
      if GetProject(st, tk.projectId).None? then Err(ProjectNotFound)
      else match InsertRun(st, NewRun(runId, taskId))
        case Err(_) => Err(StoreError)
        case Ok(st') => Ok(st')
  }
}

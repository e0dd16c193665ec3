/** One build run, `task.start` of logic/task.go, as the sequence of writes it makes to its run
    record. Every external effect (opening the log, cloning, running `go env`, the hook scripts,
    `go build`, finding the local IP) is an input: a `World` says how each of them turned out. */
module BuildRun {
  import opened Results
  import opened Strings
  import opened Model
  import Git
  import Tasks

  /** How a hook script went: it could not be written to a temporary file, or `/bin/sh` ran it.
      `runOk` is false when the shell could not start or exited non-zero. */
  datatype HookOutcome = ScriptUnwritable | Ran(runOk: bool, stderr: string)

  /** How `go build` went. `commandErr` is the error recorded when the command was constructed;
      `started` and `exitOk` are what `Start` and `Wait` reported. */
  datatype BuildOutcome = BuildOutcome(commandErr: bool, started: bool, exitOk: bool, stderr: string)

  datatype World = World(
    logOpens: bool,
    cloneOk: bool,
    gitLog: Result<seq<Git.LogItem>, Git.GitError>,
    goEnvOk: bool,
    before: HookOutcome,
    build: BuildOutcome,
    after: HookOutcome,
    ip: Option<string>)

  /** The updates a run makes to its record, in the order it makes them. */
  datatype Write =
    | SetOutFile(path: string)
    | SetDescription(description: string)
    | SetStatus(status: Status)
    | SetUrl(url: string)

  /** The step that set the run's error. */
  datatype Step = OpenLog | Clone | Commit | GoEnv | BeforeHook | Build | AfterHook

  datatype Command = Command(path: string, args: seq<string>, dir: string, env: seq<string>)

  /** `runCmd`: a hook passes when its script was written, `/bin/sh` exited 0 and nothing was
      written to stderr. */
  predicate HookOk(h: HookOutcome)
  {
    h.Ran? && h.runOk && h.stderr == ""
  }

  /** The build passes when the command was constructed and nothing was written to stderr;
      what `Start` and `Wait` report is discarded. */
  predicate BuildOk(b: BuildOutcome)
  {
    !b.commandErr && b.stderr == ""
  }

  /** `getCommit`: the message of the newest commit, or the error that stops the run. */
  function NewestCommit(w: World): (r: Result<string, string>)
    ensures r.Ok? <==> w.gitLog.Ok? && |w.gitLog.value| >= 1
    ensures r.Ok? ==> r.value == w.gitLog.value[0].commit
  {
    match w.gitLog
    case Err(_) => Err("git log failed")
    case Ok(items) => if |items| < 1 then Err("couldn't find git log") else Ok(items[0].commit)
  }

  /** The toolchain's `go` binary. */
  function GoBinary(cfg: Config, p: Project): string
  {
    PathJoin(Tasks.ToolchainPath(cfg, p.goVersion), "bin/go")
  }

  /** `go build -o <artifact> <main file>`, run in the clone with the task's environment. */
  function BuildCommand(base: seq<string>, cfg: Config, p: Project, t: Task): (c: Command)
    ensures |c.args| == 4 && c.args[..3] == ["build", "-o", Tasks.ArtifactPath(cfg, p, t)]
    ensures c.args[3] == PathJoin(p.localPath, t.mainFile)
    ensures c.path == GoBinary(cfg, p)
    ensures c.dir == p.localPath
    ensures c.env == Tasks.GetEnv(base, cfg, p, t)
  {
    Command(GoBinary(cfg, p), ["build", "-o", Tasks.ArtifactPath(cfg, p, t), PathJoin(p.localPath, t.mainFile)],
      p.localPath, Tasks.GetEnv(base, cfg, p, t))
  }

  /** What a run writes before its deferred status update, and the step that failed, if any. */
  datatype Progress = Progress(writes: seq<Write>, failed: Option<Step>)

  function Steps(cfg: Config, p: Project, t: Task, runId: int, w: World): Progress
  {
    var logged := [SetOutFile(Tasks.OutLogPath(cfg, p, t, runId))];
    if !w.logOpens then Progress(logged, Some(OpenLog))
    else if !w.cloneOk then Progress(logged, Some(Clone))
    else match NewestCommit(w)
      case Err(_) => Progress(logged, Some(Commit))
      case Ok(message) =>
        var described := logged + [SetDescription(message)];
        if !w.goEnvOk then Progress(described, Some(GoEnv))
        else if !HookOk(w.before) then Progress(described, Some(BeforeHook))
        else
          var running := described + [SetStatus(Running)];
          if !BuildOk(w.build) then Progress(running, Some(Build))
          else if !HookOk(w.after) then Progress(running, Some(AfterHook))
          else Progress(running + [SetUrl(Tasks.PublishUrl(cfg, w.ip, p, t))], None)
  }

  /** `start` with its deferred `checkError`: the steps' writes, then `Failed` if a step set
      the error and `Success` otherwise. */
  function Execute(cfg: Config, p: Project, t: Task, runId: int, w: World): (writes: seq<Write>)
    ensures |writes| >= 2 && writes[0] == SetOutFile(Tasks.OutLogPath(cfg, p, t, runId))
    ensures writes[|writes| - 1].SetStatus?
  {
    var progress := Steps(cfg, p, t, runId, w);
    progress.writes + [SetStatus(if progress.failed.Some? then Failed else Success)]
  }

  function ApplyWrite(r: Run, w: Write): Run
  {
    match w
    case SetOutFile(path) => r.(outFilePath := path)
    case SetDescription(d) => r.(description := d)
    case SetStatus(s) => r.(status := s)
    case SetUrl(u) => r.(url := u)
  }

  /** The run record after the writes, in order. */
  function Apply(r: Run, writes: seq<Write>): Run
    decreases |writes|
  {
    if |writes| == 0 then r else Apply(ApplyWrite(r, writes[0]), writes[1..])
  }

  /** A run succeeds exactly when every step succeeds. */
  predicate AllStepsSucceed(w: World)
  {
    && w.logOpens && w.cloneOk && NewestCommit(w).Ok? && w.goEnvOk
    && HookOk(w.before) && BuildOk(w.build) && HookOk(w.after)
  }

  /** Only the steps before `go build`; `Running` is written exactly when they all pass. */
  predicate PreBuildSucceeds(w: World)
  {
    w.logOpens && w.cloneOk && NewestCommit(w).Ok? && w.goEnvOk && HookOk(w.before)
  }

  function StatusesOf(writes: seq<Write>): seq<Status>
  {
    if |writes| == 0 then []
    else if writes[0].SetStatus? then [writes[0].status] + StatusesOf(writes[1..])
    else StatusesOf(writes[1..])
  }

  function UrlsOf(writes: seq<Write>): seq<string>
  {
    if |writes| == 0 then []
    else if writes[0].SetUrl? then [writes[0].url] + UrlsOf(writes[1..])
    else UrlsOf(writes[1..])
  }

  lemma {:induction false} StatusesOfAppend(a: seq<Write>, b: seq<Write>)
    ensures StatusesOf(a + b) == StatusesOf(a) + StatusesOf(b)
    decreases |a|
  {
    if |a| == 0 {
      assert a + b == b;
    } else {
      assert (a + b)[1..] == a[1..] + b;
      StatusesOfAppend(a[1..], b);
    }
  }

  lemma {:induction false} UrlsOfAppend(a: seq<Write>, b: seq<Write>)
    ensures UrlsOf(a + b) == UrlsOf(a) + UrlsOf(b)
    decreases |a|
  {
    if |a| == 0 {
      assert a + b == b;
    } else {
      assert (a + b)[1..] == a[1..] + b;
      UrlsOfAppend(a[1..], b);
    }
  }

  lemma {:induction false} ApplyAppend(r: Run, a: seq<Write>, b: seq<Write>)
    ensures Apply(r, a + b) == Apply(Apply(r, a), b)
    decreases |a|
  {
    if |a| == 0 {
      assert a + b == b;
    } else {
      assert (a + b)[1..] == a[1..] + b;
      ApplyAppend(ApplyWrite(r, a[0]), a[1..], b);
    }
  }

  /** The status writes a run makes: `Running` then the verdict when the pre-build steps pass,
      the verdict alone otherwise. */
  lemma ExecuteStatuses(cfg: Config, p: Project, t: Task, runId: int, w: World)
    ensures var verdict := if AllStepsSucceed(w) then Success else Failed;
      StatusesOf(Execute(cfg, p, t, runId, w)) ==
        if PreBuildSucceeds(w) then [Running, verdict] else [verdict]
  {
    var progress := Steps(cfg, p, t, runId, w);
    var verdict := if progress.failed.Some? then Failed else Success;
    StatusesOfAppend(progress.writes, [SetStatus(verdict)]);
    var logged := [SetOutFile(Tasks.OutLogPath(cfg, p, t, runId))];
    if PreBuildSucceeds(w) {
      var described := logged + [SetDescription(NewestCommit(w).value)];
      StatusesOfAppend(described, [SetStatus(Running)]);
      var running := described + [SetStatus(Running)];
      StatusesOfAppend(running, [SetUrl(Tasks.PublishUrl(cfg, w.ip, p, t))]);
    } else if w.logOpens && w.cloneOk && NewestCommit(w).Ok? {
      StatusesOfAppend(logged, [SetDescription(NewestCommit(w).value)]);
    }
  }

  /** The rank of a status in a run's lifecycle. */
  function Rank(s: Status): nat
  {
    match s
    case Init => 0
    case Running => 1
    case Success => 2
    case Failed => 2
  }

  /** Every status a run writes moves it strictly forward from `Init`, and the last one is final. */
  lemma ExecuteStatusesAdvance(cfg: Config, p: Project, t: Task, runId: int, w: World)
    ensures var ss := StatusesOf(Execute(cfg, p, t, runId, w));
      && 1 <= |ss| <= 2
      && Rank(Init) < Rank(ss[0])
      && (forall k :: 0 < k < |ss| ==> Rank(ss[k - 1]) < Rank(ss[k]))
      && ss[|ss| - 1] in {Success, Failed}
  {
    ExecuteStatuses(cfg, p, t, runId, w);
  }

  /** The run's final record: its log path always, its status `Success` exactly when every
      step succeeds, the commit message once the commit was read, and the download URL only
      on success. */
  lemma FinalRun(cfg: Config, p: Project, t: Task, runId: int, taskId: int, w: World)
    ensures var r := Apply(NewRun(runId, taskId), Execute(cfg, p, t, runId, w));
      && r.id == runId && r.taskId == taskId
      && r.outFilePath == Tasks.OutLogPath(cfg, p, t, runId)
      && r.status == (if AllStepsSucceed(w) then Success else Failed)
      && r.description == (if w.logOpens && w.cloneOk && NewestCommit(w).Ok? then NewestCommit(w).value else "")
      && r.url == (if AllStepsSucceed(w) then Tasks.PublishUrl(cfg, w.ip, p, t) else "")
  {
    var r0 := NewRun(runId, taskId);
    var progress := Steps(cfg, p, t, runId, w);
    var verdict := SetStatus(if progress.failed.Some? then Failed else Success);
    ApplyAppend(r0, progress.writes, [verdict]);
    var logged := [SetOutFile(Tasks.OutLogPath(cfg, p, t, runId))];
    if w.logOpens && w.cloneOk && NewestCommit(w).Ok? {
      var described := logged + [SetDescription(NewestCommit(w).value)];
      ApplyAppend(r0, logged, [SetDescription(NewestCommit(w).value)]);
      if PreBuildSucceeds(w) {
        var running := described + [SetStatus(Running)];
        ApplyAppend(r0, described, [SetStatus(Running)]);
        ApplyAppend(r0, running, [SetUrl(Tasks.PublishUrl(cfg, w.ip, p, t))]);
      }
    }
  }

  /** The URL is written at most once, and only by a run that succeeds. */
  lemma ExecuteUrls(cfg: Config, p: Project, t: Task, runId: int, w: World)
    ensures UrlsOf(Execute(cfg, p, t, runId, w)) ==
      if AllStepsSucceed(w) then [Tasks.PublishUrl(cfg, w.ip, p, t)] else []
  {
    var progress := Steps(cfg, p, t, runId, w);
    var verdict := SetStatus(if progress.failed.Some? then Failed else Success);
    UrlsOfAppend(progress.writes, [verdict]);
    var logged := [SetOutFile(Tasks.OutLogPath(cfg, p, t, runId))];
    if w.logOpens && w.cloneOk && NewestCommit(w).Ok? {
      var described := logged + [SetDescription(NewestCommit(w).value)];
      UrlsOfAppend(logged, [SetDescription(NewestCommit(w).value)]);
      if PreBuildSucceeds(w) {
        var running := described + [SetStatus(Running)];
        UrlsOfAppend(described, [SetStatus(Running)]);
        UrlsOfAppend(running, [SetUrl(Tasks.PublishUrl(cfg, w.ip, p, t))]);
      }
    }
  }

  /** The compiler's exit status and whether it started are never consulted: only the
      construction error and stderr decide the build step. */
  lemma BuildExitIgnored(cfg: Config, p: Project, t: Task, runId: int, w: World, started: bool, exitOk: bool)
    ensures var w' := w.(build := w.build.(started := started, exitOk := exitOk));
      Execute(cfg, p, t, runId, w') == Execute(cfg, p, t, runId, w)
  {
  }

  /** Output on a hook's or the compiler's stderr fails the run even when the process exits 0. */
  lemma StderrFails(cfg: Config, p: Project, t: Task, runId: int, taskId: int, w: World)
    requires (w.before.Ran? && w.before.stderr != "") || w.build.stderr != ""
      || (w.after.Ran? && w.after.stderr != "")
    ensures Apply(NewRun(runId, taskId), Execute(cfg, p, t, runId, w)).status == Failed
  {
    FinalRun(cfg, p, t, runId, taskId, w);
  }

  /** A repository whose log output is blank fails the run: the newest commit is required. */
  lemma EmptyHistoryFails(cfg: Config, p: Project, t: Task, runId: int, taskId: int, w: World, out: string)
    requires TrimSpace(out) == ""
    requires w.gitLog == Git.GitLog(true, Some(out))
    ensures Apply(NewRun(runId, taskId), Execute(cfg, p, t, runId, w)).status == Failed
  {
    assert w.gitLog == Ok([]) by {
      assert Split("", '\n') == [""];
      assert Git.ParseLine("") == None;
    }
    FinalRun(cfg, p, t, runId, taskId, w);
  }

  /** A manually started run is inserted in `Init` and then, whatever the steps do, ends in
      `Success` exactly when they all succeed and in `Failed` otherwise: it never stays in
      `Init` or `Running`. */
  lemma StartedRunFinishes(st: Store, taskId: int, runId: int, cfg: Config, w: World)
    requires Tasks.StartTask(st, taskId, runId).Ok?
    ensures var st' := Tasks.StartTask(st, taskId, runId).value;
      var t := GetTask(st, taskId).value;
      var p := GetProject(st, t.projectId).value;
      && |st'.runs| == |st.runs| + 1
      && st'.runs[|st.runs|] == NewRun(runId, taskId)
      && Apply(st'.runs[|st.runs|], Execute(cfg, p, t, runId, w)).status
           == (if AllStepsSucceed(w) then Success else Failed)
  {
    var t := GetTask(st, taskId).value;
    FinalRun(cfg, GetProject(st, t.projectId).value, t, runId, taskId, w);
  }
}

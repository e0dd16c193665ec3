# auto-build core, modelled in Dafny

This project models the core of auto-build, a small build service for Go projects. The
service registers git repositories ("projects") and build recipes ("tasks"). It installs Go
toolchains from official archive URLs ("envs"). It starts build runs ("task logs") by hand or
from a push webhook. The model covers:

- the record store and its lookups (`Model`, in model.dfy);
- task validation, the build environment, and the per-run path and URL templates (`Tasks`,
  in tasks.dfy);
- one build run, as the ordered sequence of writes it makes to its run record (`BuildRun`, in
  build_run.dfy);
- the git helpers: `git log --oneline` parsing, the remote check, and the work-tree guards
  (`Git`, in git.dfy);
- the push webhook and the runs it inserts (`Webhook`, in webhook.dfy);
- project registration, removal and branch listing (`Projects`, in projects.dfy);
- the archive-name parser and the package-name pattern match, toolchain installation and
  toolchain removal (`Toolchains`, in toolchains.dfy).

Two small modules support the rest. `Results` (results.dfy) holds the `Option` and `Result`
datatypes. `Strings` (strings.dfy) holds the Go standard-library string functions the core
relies on, each with its own lemmas: `strings.Split`, `strings.Join`, `strings.TrimSpace`,
`strings.ToLower`, decimal formatting, and string ordering.

The rest of the world is a parameter. The host's OS and architecture, the process
environment, the local IP address and the working directory are inputs. So are:

- what git printed, and whether a path is a work tree;
- whether a directory could be made, a clone succeeded or a download finished;
- the downloaded file's SHA-256 digest.

Git commands are returned as values, not run. The file system is a map from paths to
entries. A build run takes a `World` value that says how each external step turned out.

Points where the code's behaviour is easy to misread, modelled as the code has it:

- A build passes when the compiler command was constructed and wrote nothing to stderr. Its
  exit status is never consulted: the result of `c.Wait()` is discarded
  (`BuildRun.BuildExitIgnored`). A compiler that exits non-zero without writing to stderr
  therefore does not fail the run.
- Extra environment lines are split on line ends only, not on ';'. Lines without '=' are passed
  on unchanged rather than dropped (`Tasks.GetEnv`).
- `ListTask` is called with two arguments, `(projectId, versionId)`, at logic/webhook.go:60 and
  logic/env.go:249. There 0 means "no filter on this column", and `Model.ListTask` follows that
  convention. Two call sites use the one-argument form instead, whose only surviving
  definition is the older revision in model/Task.go:31: `DelPorject` at logic/project.go:154
  and the task-list handler at logic/task.go:103. The one-argument form filters on
  `project_id = id` even for 0. The model reads logic/project.go:154 as `ListTask(st, id, 0)`.
  The two readings differ only for a zero project id, which no stored project carries.

## Model

| member | source | states |
|---|---|---|
| Model.ProjectById | model/project.go:27-39 | a project is found only if it carries the requested id; none is found exactly when no stored project has that id |
| Model.ProjectByName | model/project.go:41-53 | a project is found only if it carries the requested name; none is found exactly when no stored project has that name |
| Model.TaskById | logic/webhook.go:84-88 | a task is found only if it carries the requested id; none is found exactly when no stored task has it |
| Model.VersionById | model/env.go:23-30 | a toolchain is found only if it carries the requested id; "couldn't find record" exactly when no stored toolchain has it |
| Model.ListTask | model/Task.go:31-35 | the tasks listed are exactly the stored tasks of the project and of the toolchain, where a zero id on either side means no filter |
| Model.GoVersionList | model/env.go:32-40 | the toolchains listed are exactly those recorded under the version; an empty version lists all; the list is empty exactly when no recorded toolchain matches |
| Model.RunIdTakenSpec | model/Task.go:13-15 | the primary-key clash test holds exactly when some stored run carries the id |
| Model.RunIdFreeAbove | model/Task.go:13-15 | when every stored run id is below a bound, that bound is a free key |
| Model.InsertRun | model/Task.go:26-29 | an insert fails exactly on a primary-key clash; otherwise it appends the run and changes nothing else |
| Strings.SplitLastPart | logic/env.go:151-154 | the last part of a split on a separator is the text after the last occurrence of that separator |
| Strings.SplitJoin | util/git.go:58 | splitting a joined list of separator-free strings gives the list back |
| Strings.JoinSplit | util/git.go:58 | joining the parts of a split gives the original string back |
| Strings.ConcatSplit | util/git.go:133 | gluing the split parts together without a separator deletes every separator |
| Strings.ParseNatToString | logic/task.go:402 | the decimal text of a number reads back as that number |
| Strings.IntToStringInjective | logic/task.go:402 | two integers print alike only when they are equal |
| Strings.LessEqTotal | logic/project.go:207-209 | any two strings are ordered one way or the other |
| Strings.LessEqTrans | logic/project.go:207-209 | string order is transitive |
| Strings.LessEqAntisym | logic/project.go:207-209 | strings ordered both ways are equal |
| Git.ParseFieldsMeaning | util/git.go:125-134 | splitting on ' ' and keeping field 0 as the hash and the other fields glued as the message means: no entry without a space, else the hash is the text before the first space and the message is the rest with every space deleted |
| Git.ParseLineMeaning | util/git.go:119-134 | one log line parses as the hash before the first space and the space-free rest, after dropping the first '(' through the first ')' |
| Git.GitLog | util/git.go:105-137 | "not a git" outside a work tree; a failed command is an error; in a work tree with output it always succeeds, with at most one entry per output line |
| Git.ParseLinesMeaning | util/git.go:119-136 | the entries are, in order, the meanings of the lines that have one: each line's hash and space-free message after its decoration is removed |
| Git.GitLogMeaning | util/git.go:105-137 | every line of the trimmed output contributes, in order, its hash and message once the decoration is removed; a line without a space contributes nothing |
| Git.GitLogEveryLine | util/git.go:119-136 | when every trimmed output line holds a space after its decoration is removed, the log has exactly one entry per line, at that line's position |
| Git.ParseLinesNoSpaces | util/git.go:119-135 | no parsed hash or message contains a space |
| Git.GitLogOneLine | util/git.go:105-137 | a clean one-line log "sha message" gives exactly one entry: that hash, with the message's spaces removed |
| Git.GitLogDecoratedLine | util/git.go:119-134 | a branch tip line "sha (refs) message" gives the hash and the message; the decoration is dropped |
| Git.CheckRemoteExistListing | util/git.go:50-65 | for a trimmed listing printed one remote per line, the check is exact membership of the name |
| Git.CheckRemoteExistEmptyName | util/git.go:50-65 | with no remotes at all, the empty name is reported as existing, because splitting "" yields one empty line |
| Git.AddRemote | util/git.go:26-48 | outside a work tree it fails; a failed listing is an error; an existing name fails exactly when insert-only; in every other case it returns the command to run in the path, `git remote set <name> <url>` for an existing name and `git remote add <name> <url>` for a new one |
| Git.AddRemoteListing | util/git.go:36-47 | for a trimmed listing of one remote per line, the call is refused exactly when the name is listed and insert-only is set; otherwise the option is "set" exactly when the name is listed, else "add" |
| Git.Pull | util/git.go:68-80 | it fails exactly outside a work tree; otherwise it runs `git pull <remote> <branch>` in the path |
| Git.Checkout | util/git.go:82-91 | it fails exactly outside a work tree; otherwise it runs `git checkout <name>` in the path |
| Git.InitGitAsWrittenMissesPath | util/git.go:14-22 | for every non-empty path outside a work tree, the `git init` the source runs has no directory set, so it is not run in the requested path and differs from the intended command |
| Git.InitGit | util/git.go:14-22 | a work tree needs nothing; any other path gets `git init` run in that path |
| Tasks.CheckTask | logic/task.go:56-95 | the errors come in source order: branch, main file, dest file, OS, arch; the GOOS error comes exactly when the fields are set and the OS is neither empty nor allowed, and the GOARCH error exactly when, in addition, the OS passed and the arch is neither empty nor allowed; it accepts exactly the tasks with the three fields set and the OS and arch empty or allow-listed; an empty OS or arch becomes the host's, and nothing else changes |
| Tasks.CheckTaskValid | logic/task.go:56-95 | on an allow-listed host, an accepted task is valid, a valid task is accepted unchanged, and checking twice equals checking once |
| Tasks.AddTask | logic/task.go:25-54 | a task is stored exactly when it passes the check and its project exists; a check error is reported as is; the stored row is the checked task |
| Tasks.AddTaskKeepsTasksValid | logic/task.go:25-54 | on an allow-listed host, adding a task keeps every stored task valid: fields set, OS and arch allow-listed |
| Tasks.ReadLines | logic/task.go:280-287 | no line contains a line break; an empty input has no lines |
| Tasks.ReadLinesUnlines | logic/task.go:280-287 | scanning newline-terminated lines without line breaks or trailing '\r' gives the same lines back |
| Tasks.UnlinesReadLines | logic/task.go:280-287 | without '\r', writing the scanned lines back out reproduces the input, plus a final newline if it lacked one |
| Tasks.GetEnv | logic/task.go:289-305 | the child's environment is the inherited one, seven fixed variables, then the project's lines and the task's lines as scanned |
| Tasks.GetEnvPrecedence | logic/task.go:289-305 | for any key, the last value set for it in the composed environment comes from the task's lines if they set it, else the project's, else the fixed variables, else the inherited environment; for a key without '=' that is the value the child sees |
| Tasks.GetEnvTarget | logic/task.go:296-303 | unless an extra line overrides them, the child builds for the task's target OS and architecture |
| Tasks.OutLogPathDistinct | logic/task.go:400-405 | two runs of the same task never share a stdout log file |
| Tasks.PublishUrlServesArtifact | logic/task.go:224-273 | the download URL and the artifact path share the `Name/Branch/DestFile` tail under `/output/` and the destination root, which the file route serves; with no local IP the host is 127.0.0.1 |
| Tasks.StartTask | logic/task.go:112-158 | an unknown task or project is an error; the run is inserted exactly when the task and its project are found and the run id is free; on success exactly one `Init` run for the task is appended |
| BuildRun.NewestCommit | logic/task.go:307-322 | the description comes from the first log entry; an empty log or a failed `git log` stops the run |
| BuildRun.BuildCommand | logic/task.go:218-245 | the toolchain's `bin/go` runs `build -o <artifact> <clone>/<main file>`, in the clone, with the composed environment |
| BuildRun.Execute | logic/task.go:195-278 | a run always first records its log path and always ends with a status write |
| BuildRun.ExecuteStatuses | logic/task.go:195-278 | `Running` is written exactly when every step before the build passes, then the verdict `Success` exactly when every step passes, else `Failed` |
| BuildRun.ExecuteStatusesAdvance | logic/task.go:425-433 | every status a run writes moves it strictly forward from `Init`, and the last one is terminal |
| BuildRun.FinalRun | logic/task.go:195-278 | the final record holds the log path, the commit message once it was read, `Success` exactly when every step succeeds, and the download URL only then |
| BuildRun.ExecuteUrls | logic/task.go:266-275 | the URL is written once by a successful run and never by a failed one |
| BuildRun.BuildExitIgnored | logic/task.go:247-255 | the compiler's start and exit results never change what the run writes |
| BuildRun.StderrFails | logic/task.go:393-397 | output on a hook's or the compiler's stderr fails the run even when the process exits 0 |
| BuildRun.EmptyHistoryFails | logic/task.go:315-319 | a repository whose log output is blank (only white space) fails the run |
| BuildRun.StartedRunFinishes | logic/task.go:112-158 | a manually started run is inserted in `Init` and ends in `Success` exactly when every step succeeds, otherwise in `Failed` |
| Webhook.GetBranch | logic/webhook.go:76-81 | a `refs/heads/` ref yields the rest of the ref, and any other ref yields "" |
| Webhook.GetBranchHeads | logic/webhook.go:76-81 | the branch of `refs/heads/<b>` is `b` |
| Webhook.GetBranchNoBranch | logic/webhook.go:76-81 | a ref names a branch exactly when it starts with `refs/heads/` and has more after it, so every tag ref, a bare `refs/heads/` and every other ref name none |
| Webhook.AutoBuildIds | logic/webhook.go:67-71 | the ids triggered are exactly those of the listed tasks on the pushed branch with auto-build on; with unique task ids no id is triggered twice |
| Webhook.AutoBuildIdsCount | logic/webhook.go:67-71 | each triggered task is triggered once: an id is listed as many times as there are listed tasks carrying it on the pushed branch with auto-build on |
| Webhook.DoWebHook | logic/webhook.go:23-74 | each error is returned exactly when the checks before it pass and its own fails, in the order empty project name, bad body, non-push event, no branch, unknown project; it succeeds exactly when all pass, and then triggers exactly the project's auto-build tasks on that branch, and with unique task ids each of them once |
| Webhook.TagPushRefused | logic/webhook.go:40-44 | a tag push is refused as not a push |
| Webhook.Autobuild | logic/webhook.go:83-123 | a run is inserted exactly when the task, its project and its toolchain are found and the run id is free; the inserted run is an `Init` run of the task |
| Webhook.AutobuildFresh | logic/webhook.go:83-111 | with every lookup resolving and the run id above all stored ids, the trigger inserts its run |
| Webhook.TriggerAllRuns | logic/webhook.go:67-71 | every run a push inserts is an `Init` run of a triggered task |
| Webhook.TriggerAllComplete | logic/webhook.go:67-71 | when every triggered task resolves and run ids are fresh, each triggered task gets exactly one new run, in trigger order |
| Projects.NameAllowedExamples | logic/project.go:98-101 | the unanchored name pattern refuses only names without any digit, ASCII letter, bar or underscore; "../x" and "a b" pass, "-" and "../." do not |
| Projects.CheckProject | logic/project.go:98-113 | the name error comes exactly when no class character occurs; the name-taken error exactly when the name is allowed and already used; success exactly when the name is allowed, unused and the URL parses |
| Projects.AbsIsAbsolute | logic/project.go:48 | from an absolute working directory every resolved path is absolute, resolving it again changes nothing, and an empty path resolves to the working directory |
| Projects.ResolveWorkspace | logic/project.go:37-45 | module builds use the default path; otherwise the given workspace made absolute against the working directory; with neither, registration fails |
| Projects.ResolveWorkspaceStable | logic/project.go:37-48 | from an absolute working directory, an absolute workspace is kept as given, and resolving the resolved workspace again gives it back |
| Projects.PathExists | logic/project.go:116-126 | a path is reported present exactly when it exists, and as a file error exactly when it is a regular file |
| Projects.RemoveAll | logic/project.go:69 | the path and everything below it are gone, and every other entry is unchanged |
| Projects.AddProject | logic/project.go:20-92 | registration succeeds exactly when the checks pass, a workspace resolves, the local path does not exist, the bare path is not a file, and mkdir and clone succeed; the new row is the request with the new id and the resolved paths, every other field as given; the other tables are unchanged; the bare directory exists afterwards |
| Projects.AddProjectKeepsNamesUnique | logic/project.go:98-105 | registration keeps project names unique |
| Projects.EmptyLocalPathRefused | logic/project.go:48-63 | a registration without a local path resolves it to the existing working directory and is refused |
| Projects.DelProjectAsWritten | logic/project.go:138-176 | removal succeeds exactly when the project with the body's id exists and has no tasks, and a refusal changes nothing |
| Projects.DelProjectAsWrittenRemovesAllBareClones | logic/project.go:138-176 | a removal request carrying only the id removes the whole bare root, and with it another project's bare clone |
| Projects.DelProject | logic/project.go:138-176 | removal succeeds exactly when the project exists and has no tasks; a refusal changes nothing; success drops exactly that project's rows and its own bare clone, and leaves tasks, runs and toolchains unchanged |
| Projects.DelProjectKeepsOtherClones | logic/project.go:173 | the corrected removal leaves every other project's bare clone in place |
| Projects.SortedUnique | logic/project.go:207-209 | two sorted arrangements of the same branch names are equal |
| Projects.SortBranchesCharacterized | logic/project.go:207-209 | the sorted branch list is the only sorted permutation of the listing |
| Projects.ListBranch | logic/project.go:178-212 | it succeeds exactly when the project exists and the fetch and the listing succeed; the result is the listing sorted ascending |
| Toolchains.ParseUrlFilename | logic/env.go:151-154 | the archive name contains neither '/' nor '?' |
| Toolchains.ParseUrlFilenameSpec | logic/env.go:151-154 | the archive name is the text after the last '/' of the URL's part before its first '?' |
| Toolchains.ParseUrlFilenameOf | logic/env.go:151-154 | `dir/name` and `dir/name?query` both name the archive `name` |
| Toolchains.MatchAtSound | logic/env.go:23-25 | a successful attempt at a position is a match of the package-name pattern there |
| Toolchains.FindVersionSound | logic/env.go:110 | what the leftmost-match search finds is a match of the pattern, at or after where it started |
| Toolchains.MatchAtComplete | logic/env.go:23-25 | whenever the pattern matches at a position, the backtracking attempt there succeeds |
| Toolchains.FindVersionLeftmost | logic/env.go:110 | a match at position t is found at t or further left |
| Toolchains.MatchVersionComplete | logic/env.go:110-113 | a group is found exactly when the pattern matches somewhere in the archive name |
| Toolchains.MatchVersionLeftmost | logic/env.go:110-113 | the group returned is that of a match with no match further left |
| Toolchains.ParseUrl | logic/env.go:101-114 | "couldn't match" exactly when the pattern finds nothing; otherwise the first group, which contains a '.' |
| Toolchains.MatchVersionCanonical | logic/env.go:23-25 | the group matched in an official archive name `go<version>.<os>-<arch>.tar.gz` is its version |
| Toolchains.ParseUrlCanonical | logic/env.go:101-114 | for an official archive URL built for this host, the version parsed is the archive's version |
| Toolchains.ParseUrlOtherPlatform | logic/env.go:23-25 | an archive name without the host OS's first character is refused |
| Toolchains.ParseUrlDarwinOnLinux | logic/env.go:23-25 | a darwin archive, of any version and architecture without 'l', '/' or '?', is refused on a linux host of any architecture, wherever it is downloaded from |
| Toolchains.AddEnv | logic/env.go:41-99 | an unparsable URL is refused; a version already recorded is refused before the download is looked at; then a failed download, then a digest differing from the lower-cased sum; an install is recorded exactly when the version parses and is not yet recorded, the download finished, the digest equals the lower-cased sum, and unpacking and renaming succeed; the row holds the host platform and `<GoEnvPath>/go<version>` |
| Toolchains.AddEnvInstalls | logic/env.go:49-98 | installing keeps version strings unique, and the recorded directory is the toolchain path of the name `go<version>`; a build finds it only if its project's free-text toolchain field holds exactly that name |
| Toolchains.ShaComparison | logic/env.go:66-70 | only the supplied sum is lower-cased: every sum matches its lower-cased digest, every sum with an upper-case letter is refused as a digest when its lower-cased form is supplied, and an empty sum accepts an unreadable file |
| Toolchains.DelEnv | logic/env.go:233-278 | an unknown toolchain is an error; one in use is refused and nothing changes; an unused one is deleted, every other toolchain and table kept, and its recorded directory is removed when the removal succeeds; success requires the directory removal |
| Toolchains.DelEnvKeepsTasksResolved | logic/env.go:249-264 | removal never leaves a task pointing at a missing toolchain |

## Left out

- HTTP handling, JSON bodies, CORS and the response writers. Each handler is modelled from the
  point where its parameters are parsed; a body that does not parse is an error input.
- The SQL engine. Lookups return the first matching row, and inserts of projects, tasks and
  toolchains always succeed with an id supplied by the caller; only the run insert models a
  primary-key clash. xorm's habit of ignoring zero-valued fields in `Get` conditions is not
  modelled.
- Subprocesses, timeouts, downloads, archive unpacking and SHA-256 hashing. Their outcomes are
  inputs; the digest is given as lower-case hex, or "" for an unreadable file.
- `path.Join` and `filepath.Abs` are modelled without lexical clean-up, and `filepath.Abs`
  cannot fail.
- `strings.ToLower` is modelled on ASCII letters only.
- Goroutines. `DoWebHook` returns the ids it would trigger, and `Webhook.TriggerAll` applies the
  triggers one after another. The concurrent order of runs is not modelled.
- The periodic version refresh in env/env.go, the handlers of logic/home.go, `DelTask`,
  `SetTaskAutoBuild`, `ListTaskLog`, `GetTaskLogOutput` and `goGet` are not part of this model.
- The scanner's 64 KB line limit in `readline`. The deferred removal of the clone and closing of
  log files in `start` have no effect on the run record and are not modelled.
- The `-n` count argument of `GitLog`; the model parses whatever output git printed.
- Webhook.DoWebHook: completeness and soundness of the triggered ids are stated for a project
  with a nonzero id only. Stored ids are never zero, and a zero id would list every project's
  tasks. "Each once" is stated as "no id twice" for stores whose task ids are unique, as
  primary keys are; the exact count per id is `Webhook.AutoBuildIdsCount`, about the listed
  tasks.
- Toolchains.MatchVersionLeftmost: states that the match is leftmost. Among the ends at the
  same start it does not state which one the matcher prefers (the longest run of class
  characters, tried downwards, with ']' before its absence). `Toolchains.TryEnds` computes
  that order.
- Projects.DelProjectKeepsOtherClones: stated for project names without '/'. A name with '/'
  can name a directory inside another project's bare clone.
- Toolchains.DelEnv: the response texts are not modelled, only which error comes.
- Git.AddRemote: returns the command the source builds and does not model its outcome, which
  the source returns from `cmd.Run()`. For an existing remote that command is `git remote set`,
  and `set` is not a git subcommand (`set-url` is), so git would reject it.
- Toolchains.ParseUrlDarwinOnLinux: stated for versions and architectures without 'l', '/' or '?'. Without
  an 'l' the name cannot contain the host OS "linux", and every published Go version and darwin
  architecture meets this. A made-up architecture spelled with "linux" in it could match.

## Findings

| source | as written | input that shows it | evidently intended | confidence | as-written member | corrected member |
|---|---|---|---|---|---|---|
| logic/project.go:173 | removes the bare clone named by the request body's `Name`, not the stored project's | a removal request `{"id": <id>}` without a name removes the whole bare root | remove `getBarePath(pro.Name)`, the stored project's own clone | not executed | Projects.DelProjectAsWrittenRemovesAllBareClones | Projects.DelProjectKeepsOtherClones |
| util/git.go:19-21 | `git init` is run without `cmd.Dir`, so it initialises the server's working directory | `InitGit(path)` for any non-empty `path` that is not a work tree, e.g. /srv/repo | run `git init` in `path` | not executed | Git.InitGitAsWrittenMissesPath | Git.InitGit |

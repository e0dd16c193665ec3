/** Project registration, removal and branch listing of logic/project.go. The file system is a
    map from paths to entries; the URL parse, directory creation and the bare clone are inputs
    saying whether each succeeded. */
module Projects {
  import opened Results
  import opened Strings
  import opened Model

  datatype Entry = Dir | File

  /** The paths that exist and what each is. A path that cannot be inspected is absent. */
  type Fs = map<string, Entry>

  datatype ProjectError =
    | NameNotAllowed
    | NameTaken
    | BadUrl
    | NoWorkspace
    | PathIsFile(path: string)
    | LocalPathExists
    | MkdirFailed
    | CloneFailed
    | NotFound
    | HasTasks
    | FetchFailed
    | ListFailed

  /** A character of the class `[0-9|a-z|A-Z|-|_]`. Inside the brackets `|-|` is the range
      from '|' to '|', so the class holds digits, ASCII letters, '|' and '_', and not '-'. */
  predicate NameClassChar(c: char)
  {
    IsDigit(c) || ('a' <= c <= 'z') || ('A' <= c <= 'Z') || c == '|' || c == '_'
  }

  /** The unanchored pattern `[…]{1,30}` matches exactly when one character of the class
      occurs somewhere in the name. */
  predicate NameAllowed(name: string)
  {
    exists k :: 0 <= k < |name| && NameClassChar(name[k])
  }

  /** The position of the first class character, scanning as the matcher does; -1 if none. */
  function FirstClassChar(name: string): (k: int)
    ensures -1 <= k < |name|
    ensures k >= 0 ==> NameClassChar(name[k]) && forall j :: 0 <= j < k ==> !NameClassChar(name[j])
    ensures k < 0 <==> forall j :: 0 <= j < |name| ==> !NameClassChar(name[j])
  {
    if |name| == 0 then -1
    else if NameClassChar(name[0]) then 0
    else
      var k := FirstClassChar(name[1..]);
      assert forall j :: 1 <= j < |name| ==> name[j] == name[1..][j - 1];
      if k < 0 then -1 else k + 1
  }

  /** The name check admits far more than plain identifiers: only names made entirely of
      other characters are refused. */
  lemma NameAllowedExamples()
    ensures !NameAllowed("") && !NameAllowed("-") && !NameAllowed("../.")
    ensures NameAllowed("../x") && NameAllowed("a b") && NameAllowed("|")
  {
    assert NameClassChar("../x"[3]);
    assert NameClassChar("a b"[0]);
    assert NameClassChar("|"[0]);
    assert forall j :: 0 <= j < |"../."| ==> !NameClassChar("../."[j]);
  }

  /** `checkProject`: the name pattern, then uniqueness by name, then the URL parse. */
  function CheckProject(st: Store, p: Project, urlOk: bool): (r: Result<(), ProjectError>)
    ensures r == Err(NameNotAllowed) <==> FirstClassChar(p.name) < 0
    ensures r == Err(NameTaken) <==> NameAllowed(p.name) && GetProjectByName(st, p.name).Some?
    ensures r.Ok? <==> NameAllowed(p.name) && (forall q :: q in st.projects ==> q.name != p.name) && urlOk
  {
    if FirstClassChar(p.name) < 0 then Err(NameNotAllowed)
    else if GetProjectByName(st, p.name).Some? then Err(NameTaken)
    else if !urlOk then Err(BadUrl)
    else Ok(())
  }

  /** `filepath.Abs` without the lexical clean-up: a relative path is joined to the working
      directory. */
  function Abs(cwd: string, path: string): (r: string)
    ensures |path| > 0 && path[0] == '/' ==> r == path
  {
    if |path| > 0 && path[0] == '/' then path else PathJoin(cwd, path)
  }

  /** From an absolute working directory every result is absolute, and making it absolute
      again changes nothing. An empty path names the working directory itself. */
  lemma AbsIsAbsolute(cwd: string, path: string)
    requires |cwd| > 0 && cwd[0] == '/'
    ensures var r := Abs(cwd, path); |r| > 0 && r[0] == '/' && Abs(cwd, r) == r
    ensures Abs(cwd, "") == cwd
  {
  }

  /** The workspace a new project gets: the shared default path for module builds, otherwise
      the given workspace made absolute; with neither, registration fails. */
  function ResolveWorkspace(cfg: Config, cwd: string, p: Project): (r: Result<string, ProjectError>)
    ensures p.goMod ==> r == Ok(cfg.defaultGoPath)
    ensures r == Err(NoWorkspace) <==> !p.goMod && p.workSpace == ""
    ensures !p.goMod && p.workSpace != "" ==> r == Ok(Abs(cwd, p.workSpace))
    ensures !p.goMod && p.workSpace != "" && |cwd| > 0 && cwd[0] == '/' ==>
      r.Ok? && |r.value| > 0 && r.value[0] == '/'
  {
    if p.goMod then Ok(cfg.defaultGoPath)
    else if p.workSpace != "" then Ok(Abs(cwd, p.workSpace))
    else Err(NoWorkspace)
  }

  /** From an absolute working directory, a workspace already resolved resolves to itself:
      an absolute workspace is kept as given, and resolution is idempotent. */
  lemma ResolveWorkspaceStable(cfg: Config, cwd: string, p: Project)
    requires |cwd| > 0 && cwd[0] == '/'
    requires ResolveWorkspace(cfg, cwd, p).Ok?
    ensures var ws := ResolveWorkspace(cfg, cwd, p).value;
      && ResolveWorkspace(cfg, cwd, p.(workSpace := ws)) == Ok(ws)
      && (!p.goMod && |p.workSpace| > 0 && p.workSpace[0] == '/' ==> ws == p.workSpace)
  {
    if !p.goMod {
      AbsIsAbsolute(cwd, p.workSpace);
    }
  }

  /** `PathExists`: a directory exists; a regular file exists and is also an error; anything
      that cannot be inspected does not exist. */
  datatype PathCheck = PathCheck(present: bool, isFile: bool)

  function PathExists(fs: Fs, path: string): (r: PathCheck)
    ensures r.isFile ==> r.present
    ensures r.present <==> path in fs
    ensures r.isFile <==> path in fs && fs[path] == File
  {
    if path !in fs then PathCheck(false, false)
    else PathCheck(true, fs[path] == File)
  }

  /** `getBarePath`: the bare clone of a project lives under the bare root, by name. */
  function BareDir(cfg: Config, name: string): string
  {
    PathJoin(cfg.barePath, name)
  }

  /** `path` itself or a path below it. */
  predicate Under(k: string, path: string)
  {
    k == path || path + "/" <= k
  }

  /** `os.RemoveAll`: `path` and everything below it are gone, nothing else changes. */
  function RemoveAll(fs: Fs, path: string): (fs': Fs)
    ensures forall k :: k in fs' <==> k in fs && !Under(k, path)
    ensures forall k :: k in fs' ==> fs'[k] == fs[k]
  {
    map k | k in fs && !Under(k, path) :: fs[k]
  }

  /** The store and the file system after a registration attempt. Directories removed or made
      before a later step fails stay removed or made. */
  datatype AddOutcome = AddOutcome(result: Result<Store, ProjectError>, fs: Fs)

  /** `AddPorject`: the checks, the workspace, the local path (which must not exist yet), a
      fresh bare directory, the bare clone, and the insert with the id `newId`. */
  function AddProject(st: Store, fs: Fs, cfg: Config, cwd: string, p: Project,
                      urlOk: bool, mkdirOk: bool, cloneOk: bool, newId: int): (r: AddOutcome)
    ensures CheckProject(st, p, urlOk).Err? ==> r == AddOutcome(Err(CheckProject(st, p, urlOk).error), fs)
    ensures r.result.Ok? ==>
      && CheckProject(st, p, urlOk).Ok?
      && Abs(cwd, p.localPath) !in fs
      && r.result.value.tasks == st.tasks && r.result.value.runs == st.runs
      && r.result.value.versions == st.versions
      && |r.result.value.projects| == |st.projects| + 1
      && r.result.value.projects[..|st.projects|] == st.projects
      && var q := r.result.value.projects[|st.projects|];
         && q.id == newId && q.name == p.name
         && q.(id := p.id, workSpace := p.workSpace, localPath := p.localPath) == p
         && ResolveWorkspace(cfg, cwd, p) == Ok(q.workSpace)
         && q.localPath == Abs(cwd, p.localPath)
         && BareDir(cfg, p.name) in r.fs && r.fs[BareDir(cfg, p.name)] == Dir
    ensures r.result.Ok? <==>
      && CheckProject(st, p, urlOk).Ok? && (p.goMod || p.workSpace != "")
      && Abs(cwd, p.localPath) !in fs
      && !PathExists(fs, BareDir(cfg, p.name)).isFile
      && mkdirOk && cloneOk
  {
    match CheckProject(st, p, urlOk)
    case Err(e) => AddOutcome(Err(e), fs)
    case Ok(_) =>
      match ResolveWorkspace(cfg, cwd, p)
      case Err(e) => AddOutcome(Err(e), fs)
      case Ok(ws) =>
        var local := Abs(cwd, p.localPath);
        var localCheck := PathExists(fs, local);
        if localCheck.isFile then AddOutcome(Err(PathIsFile(local)), fs)
        else if localCheck.present then AddOutcome(Err(LocalPathExists), fs)
        else
          var bare := BareDir(cfg, p.name);
          var bareCheck := PathExists(fs, bare);
          if bareCheck.isFile then AddOutcome(Err(PathIsFile(bare)), fs)
          else
            var cleared := if bareCheck.present then RemoveAll(fs, bare) else fs;
            if !mkdirOk then AddOutcome(Err(MkdirFailed), cleared)
            else
              var made := cleared[bare := Dir];
              if !cloneOk then AddOutcome(Err(CloneFailed), made)
              else
                var q := p.(id := newId, workSpace := ws, localPath := local);
                AddOutcome(Ok(st.(projects := st.projects + [q])), made)
  }

  /** Project names are unique. */
  predicate UniqueNames(st: Store)
  {
    forall i, j :: 0 <= i < j < |st.projects| ==> st.projects[i].name != st.projects[j].name
  }

  /** Registration keeps project names unique. */
  lemma AddProjectKeepsNamesUnique(st: Store, fs: Fs, cfg: Config, cwd: string, p: Project,
                                   urlOk: bool, mkdirOk: bool, cloneOk: bool, newId: int)
    requires UniqueNames(st)
    requires AddProject(st, fs, cfg, cwd, p, urlOk, mkdirOk, cloneOk, newId).result.Ok?
    ensures UniqueNames(AddProject(st, fs, cfg, cwd, p, urlOk, mkdirOk, cloneOk, newId).result.value)
  {
    var st' := AddProject(st, fs, cfg, cwd, p, urlOk, mkdirOk, cloneOk, newId).result.value;
    var n := |st.projects|;
    forall i, j | 0 <= i < j < |st'.projects|
      ensures st'.projects[i].name != st'.projects[j].name
    {
      if j == n {
        assert st'.projects[i] == st.projects[i];
        assert st.projects[i] in st.projects;
      } else {
        assert st'.projects[i] == st.projects[i] && st'.projects[j] == st.projects[j];
      }
    }
  }

  /** A registration without a local path resolves it to the working directory, which exists,
      so it is refused. */
  lemma EmptyLocalPathRefused(st: Store, fs: Fs, cfg: Config, cwd: string, p: Project,
                              urlOk: bool, mkdirOk: bool, cloneOk: bool, newId: int)
    requires p.localPath == "" && cwd in fs && fs[cwd] == Dir
    ensures AddProject(st, fs, cfg, cwd, p, urlOk, mkdirOk, cloneOk, newId).result.Err?
  {
    assert Abs(cwd, "") == cwd;
  }

  /** Removal results. */
  datatype DelOutcome = DelOutcome(result: Result<Store, ProjectError>, fs: Fs)

  /** The store without the project whose id is `id`. */
  function WithoutProject(st: Store, id: int): (st': Store)
    ensures forall q :: q in st'.projects <==> q in st.projects && q.id != id
    ensures st'.tasks == st.tasks && st'.runs == st.runs && st'.versions == st.versions
  {
    st.(projects := ProjectsWithout(st.projects, id))
  }

  /** `DelPorject` as written: the stored project is found by the id in the request body, but
      the bare clone removed is the one named by the request body's name field. */
  function DelProjectAsWritten(st: Store, fs: Fs, cfg: Config, body: Project): (r: DelOutcome)
    ensures r.result.Ok? <==> GetProject(st, body.id).Some? && |ListTask(st, body.id, 0)| == 0
    ensures r.result.Err? ==> r.fs == fs
  {
    match GetProject(st, body.id)
    case None => DelOutcome(Err(NotFound), fs)
    case Some(pro) =>
      if |ListTask(st, body.id, 0)| > 0 then DelOutcome(Err(HasTasks), fs)
      else DelOutcome(Ok(WithoutProject(st, pro.id)), RemoveAll(fs, BareDir(cfg, body.name)))
  }

  /** A removal request that carries only the id (an empty name) removes the whole bare root,
      and with it every other project's bare clone. */
  lemma DelProjectAsWrittenRemovesAllBareClones(st: Store, fs: Fs, cfg: Config, id: int, other: Project)
    requires id != 0
    requires GetProject(st, id).Some? && |ListTask(st, id, 0)| == 0
    requires other in st.projects && other.id != id
    requires cfg.barePath != "" && other.name != ""
    ensures var body := Project(id, "", "", "", "", "", false, "", "", "", "", "");
      var r := DelProjectAsWritten(st, fs, cfg, body);
      && r.result.Ok? && other in r.result.value.projects
      && BareDir(cfg, other.name) !in r.fs
  {
    var bare := BareDir(cfg, other.name);
    assert bare == cfg.barePath + "/" + other.name;
    assert cfg.barePath + "/" <= bare;
  }

  /** `DelPorject` corrected: the bare clone removed is the stored project's own. */
  function DelProject(st: Store, fs: Fs, cfg: Config, id: int): (r: DelOutcome)
    ensures r.result.Ok? <==> GetProject(st, id).Some? && |ListTask(st, id, 0)| == 0
    ensures r.result.Err? ==> r.fs == fs
    ensures r.result.Ok? ==>
      && (forall q :: q in r.result.value.projects <==> q in st.projects && q.id != id)
      && r.result.value.tasks == st.tasks && r.result.value.runs == st.runs
      && r.result.value.versions == st.versions
      && r.fs == RemoveAll(fs, BareDir(cfg, GetProject(st, id).value.name))
  {
    match GetProject(st, id)
    case None => DelOutcome(Err(NotFound), fs)
    case Some(pro) =>
      if |ListTask(st, id, 0)| > 0 then DelOutcome(Err(HasTasks), fs)
      else DelOutcome(Ok(WithoutProject(st, pro.id)), RemoveAll(fs, BareDir(cfg, pro.name)))
  }

  /** The corrected removal leaves every other project's bare clone in place, as long as
      names do not contain '/'. */
  lemma DelProjectKeepsOtherClones(st: Store, fs: Fs, cfg: Config, id: int, other: Project)
    requires DelProject(st, fs, cfg, id).result.Ok?
    requires other.name != GetProject(st, id).value.name
    requires '/' !in other.name && '/' !in GetProject(st, id).value.name
    requires GetProject(st, id).value.name != "" && other.name != ""
    requires BareDir(cfg, other.name) in fs
    ensures BareDir(cfg, other.name) in DelProject(st, fs, cfg, id).fs
  {
    BareDirsDisjoint(cfg.barePath, GetProject(st, id).value.name, other.name);
  }

  /** Sibling directories named without '/' are never one inside the other. */
  lemma BareDirsDisjoint(base: string, a: string, b: string)
    requires a != b && '/' !in a && '/' !in b && a != "" && b != ""
    ensures !Under(PathJoin(base, b), PathJoin(base, a))
  {
    NotPrefixWithSlash(a, b);
    if base != "" {
      var pre := base + "/";
      assert PathJoin(base, b) == pre + b && PathJoin(base, a) == pre + a;
      assert PathJoin(base, a) + "/" == pre + (a + "/");
      PrefixCancel(pre, a + "/", b);
      assert (pre + a)[|pre|..] == a && (pre + b)[|pre|..] == b;
    }
  }

  lemma NotPrefixWithSlash(a: string, b: string)
    requires '/' !in b
    ensures !(a + "/" <= b)
  {
    if |a| < |b| {
      assert b[|a|] in b;
      assert (a + "/")[|a|] == '/';
    }
  }

  lemma PrefixCancel(pre: string, x: string, y: string)
    ensures pre + x <= pre + y ==> x <= y
  {
    if pre + x <= pre + y {
      assert forall i :: 0 <= i < |x| ==> x[i] == (pre + x)[|pre| + i] && y[i] == (pre + y)[|pre| + i];
    }
  }

  /** Go's `<` on strings, as `sort.Slice` is given it. */
  predicate Sorted(xs: seq<string>)
  {
    forall i :: 0 < i < |xs| ==> LessEq(xs[i - 1], xs[i])
  }

  function Insert(x: string, xs: seq<string>): (r: seq<string>)
    requires Sorted(xs)
    ensures Sorted(r)
    ensures multiset(r) == multiset(xs) + multiset{x}
    ensures |r| > 0 && (r[0] == x || (|xs| > 0 && r[0] == xs[0]))
  {
    if |xs| == 0 then [x]
    else if LessEq(x, xs[0]) then
      SortedCons(x, xs);
      [x] + xs
    else
      LessEqTotal(x, xs[0]);
      var rest := Insert(x, xs[1..]);
      SortedCons(xs[0], rest);
      assert xs == [xs[0]] + xs[1..];
      [xs[0]] + rest
  }

  /** A name no greater than the first of a sorted list can go in front of it. */
  lemma SortedCons(h: string, t: seq<string>)
    requires Sorted(t) && (|t| == 0 || LessEq(h, t[0]))
    ensures Sorted([h] + t)
  {
    var r := [h] + t;
    forall i | 0 < i < |r| ensures LessEq(r[i - 1], r[i]) {
      if i > 1 {
        assert r[i - 1] == t[i - 2] && r[i] == t[i - 1];
      }
    }
  }

  /** The branch list in ascending order. */
  function SortBranches(xs: seq<string>): (r: seq<string>)
    ensures Sorted(r)
    ensures multiset(r) == multiset(xs)
  {
    if |xs| == 0 then []
    else
      assert xs == [xs[0]] + xs[1..];
      Insert(xs[0], SortBranches(xs[1..]))
  }

  lemma {:induction false} SortedHeadLeast(xs: seq<string>, k: int)
    requires Sorted(xs) && 0 <= k < |xs|
    ensures LessEq(xs[0], xs[k])
    decreases k
  {
    if k == 0 {
      LessEqTotal(xs[0], xs[0]);
    } else {
      SortedHeadLeast(xs, k - 1);
      LessEqTrans(xs[0], xs[k - 1], xs[k]);
    }
  }

  /** A sorted arrangement of a list of names is unique, so the sorted branch list does not
      depend on the order in which the branches were reported. */
  lemma {:induction false} SortedUnique(a: seq<string>, b: seq<string>)
    requires Sorted(a) && Sorted(b) && multiset(a) == multiset(b)
    ensures a == b
    decreases |a|
  {
    if |a| > 0 {
      SortedHeadsEqual(a, b);
      MultisetTail(a);
      MultisetTail(b);
      SortedUnique(a[1..], b[1..]);
    }
  }

  /** Two sorted arrangements of the same names start with the same name. */
  lemma SortedHeadsEqual(a: seq<string>, b: seq<string>)
    requires Sorted(a) && Sorted(b) && multiset(a) == multiset(b) && |a| > 0
    ensures |b| > 0 && a[0] == b[0]
  {
    assert |b| == |multiset(b)| == |a|;
    assert a[0] in multiset(b);
    var j :| 0 <= j < |b| && b[j] == a[0];
    assert b[0] in multiset(a);
    var i :| 0 <= i < |a| && a[i] == b[0];
    SortedHeadLeast(a, i);
    SortedHeadLeast(b, j);
    LessEqAntisym(a[0], b[0]);
  }

  /** Dropping the first name drops one occurrence of it. */
  lemma MultisetTail(a: seq<string>)
    requires |a| > 0
    ensures multiset(a[1..]) == multiset(a) - multiset{a[0]}
  {
    assert a == [a[0]] + a[1..];
  }

  lemma SortBranchesCharacterized(xs: seq<string>, ys: seq<string>)
    requires Sorted(ys) && multiset(ys) == multiset(xs)
    ensures SortBranches(xs) == ys
  {
    SortedUnique(SortBranches(xs), ys);
  }

  /** `ListBranch`: the project must exist, the fetch and the listing must succeed; the
      branches are returned sorted. */
  function ListBranch(st: Store, id: int, fetchOk: bool, listing: Option<seq<string>>): (r: Result<seq<string>, ProjectError>)
    ensures r.Ok? <==> GetProject(st, id).Some? && fetchOk && listing.Some?
    ensures r.Ok? ==> Sorted(r.value) && multiset(r.value) == multiset(listing.value)
  {
    if GetProject(st, id).None? then Err(NotFound)
    else if !fetchOk then Err(FetchFailed)
    else match listing
      case None => Err(ListFailed)
      case Some(branches) => Ok(SortBranches(branches))
  }
}

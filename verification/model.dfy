/** The persistent records of the build service and the key-indexed store that holds them.
    The store is a set of tables kept as sequences; a lookup returns the first matching row,
    as a single-row `Get` does. */
module Model {
  import opened Results

  /** A registered source repository. */
  datatype Project = Project(
    id: int,
    name: string,
    localPath: string,
    url: string,
    mainBranch: string,
    token: string,
    goMod: bool,
    workSpace: string,
    env: string,
    goVersion: string,
    beforeBuildCmd: string,
    afterBuildCmd: string)

  /** A build recipe bound to one project. `goVersion` is the id of an installed toolchain. */
  datatype Task = Task(
    id: int,
    projectId: int,
    branch: string,
    mainFile: string,
    destFile: string,
    destOs: string,
    destArch: string,
    goVersion: int,
    env: string,
    autoBuild: bool)

  datatype Status = Init | Running | Success | Failed

  /** One triggered build (a task log row). */
  datatype Run = Run(
    id: int,
    taskId: int,
    status: Status,
    outFilePath: string,
    description: string,
    url: string)

  /** An installed toolchain. */
  datatype GoVersion = GoVersion(
    id: int,
    version: string,
    os: string,
    arch: string,
    url: string,
    sha2: string,
    localPath: string)

  /** The configuration values the core reads. */
  datatype Config = Config(
    port: int,
    recordPath: string,
    goEnvPath: string,
    defaultGoPath: string,
    destPath: string,
    barePath: string)

  datatype Store = Store(
    projects: seq<Project>,
    tasks: seq<Task>,
    runs: seq<Run>,
    versions: seq<GoVersion>)

  /** The first project with this id, as a single-row `Get` by id returns it. */
  function ProjectById(ps: seq<Project>, id: int): (r: Option<Project>)
    ensures r.Some? ==> r.value in ps && r.value.id == id
    ensures r.None? <==> forall k :: 0 <= k < |ps| ==> ps[k].id != id
  {
    if |ps| == 0 then None
    else if ps[0].id == id then Some(ps[0])
    else ProjectById(ps[1..], id)
  }

  /** The first project with this name. */
  function ProjectByName(ps: seq<Project>, name: string): (r: Option<Project>)
    ensures r.Some? ==> r.value in ps && r.value.name == name
    ensures r.None? <==> forall k :: 0 <= k < |ps| ==> ps[k].name != name
  {
    if |ps| == 0 then None
    else if ps[0].name == name then Some(ps[0])
    else ProjectByName(ps[1..], name)
  }

  /** The first task with this id. */
  function TaskById(ts: seq<Task>, id: int): (r: Option<Task>)
    ensures r.Some? ==> r.value in ts && r.value.id == id
    ensures r.None? <==> forall k :: 0 <= k < |ts| ==> ts[k].id != id
  {
    if |ts| == 0 then None
    else if ts[0].id == id then Some(ts[0])
    else TaskById(ts[1..], id)
  }

  /** The first toolchain with this id. */
  function VersionById(vs: seq<GoVersion>, id: int): (r: Option<GoVersion>)
    ensures r.Some? ==> r.value in vs && r.value.id == id
    ensures r.None? <==> forall k :: 0 <= k < |vs| ==> vs[k].id != id
  {
    if |vs| == 0 then None
    else if vs[0].id == id then Some(vs[0])
    else VersionById(vs[1..], id)
  }

  function GetProject(st: Store, id: int): Option<Project>
  {
    ProjectById(st.projects, id)
  }

  function GetProjectByName(st: Store, name: string): Option<Project>
  {
    ProjectByName(st.projects, name)
  }

  function GetTask(st: Store, id: int): Option<Task>
  {
    TaskById(st.tasks, id)
  }

  function GetGoVersion(st: Store, id: int): Option<GoVersion>
  {
    VersionById(st.versions, id)
  }

  /** A task passes the `ListTask` filter: a zero id means "no filter on this column". */
  predicate TaskListed(t: Task, projectId: int, versionId: int)
  {
    (projectId == 0 || t.projectId == projectId) && (versionId == 0 || t.goVersion == versionId)
  }

  /** Task ids are primary keys: no two rows share one. */
  predicate TaskIdsUnique(ts: seq<Task>)
  {
    forall i, j :: 0 <= i < j < |ts| ==> ts[i].id != ts[j].id
  }

  /** The tasks passing the filter, in order. */
  function TasksWhere(ts: seq<Task>, projectId: int, versionId: int): (r: seq<Task>)
    ensures |r| <= |ts|
    ensures forall t :: t in r <==> t in ts && TaskListed(t, projectId, versionId)
    ensures TaskIdsUnique(ts) ==> TaskIdsUnique(r)
  {
    if |ts| == 0 then []
    else
      var rest := TasksWhere(ts[1..], projectId, versionId);
      assert forall t :: t in ts <==> t == ts[0] || t in ts[1..];
      UniqueTail(ts);
      UniqueCons(ts[0], rest);
      if TaskListed(ts[0], projectId, versionId) then [ts[0]] + rest else rest
  }

  /** Past the first of distinct ids, the ids stay distinct and none is the first one. */
  lemma UniqueTail(ts: seq<Task>)
    requires |ts| > 0
    ensures TaskIdsUnique(ts) ==> TaskIdsUnique(ts[1..]) && forall t :: t in ts[1..] ==> t.id != ts[0].id
  {
    if TaskIdsUnique(ts) {
      forall i, j | 0 <= i < j < |ts[1..]|
        ensures ts[1..][i].id != ts[1..][j].id
      {
        assert ts[1..][i] == ts[i + 1] && ts[1..][j] == ts[j + 1];
      }
      forall t | t in ts[1..]
        ensures t.id != ts[0].id
      {
        var k :| 0 <= k < |ts[1..]| && ts[1..][k] == t;
        assert t == ts[k + 1];
      }
    }
  }

  /** A task whose id none of a list of distinct ids has can go in front of it. */
  lemma UniqueCons(h: Task, ts: seq<Task>)
    ensures TaskIdsUnique(ts) && (forall t :: t in ts ==> t.id != h.id) ==> TaskIdsUnique([h] + ts)
  {
    if TaskIdsUnique(ts) && (forall t :: t in ts ==> t.id != h.id) {
      var r := [h] + ts;
      forall i, j | 0 <= i < j < |r| ensures r[i].id != r[j].id {
        assert r[j] == ts[j - 1];
        if i > 0 {
          assert r[i] == ts[i - 1];
        } else {
          assert r[j] in ts;
        }
      }
    }
  }

  /** Tasks of a project and/or using a toolchain; a zero id means "no filter on this column". */
  function ListTask(st: Store, projectId: int, versionId: int): (r: seq<Task>)
    ensures |r| <= |st.tasks|
    ensures forall t :: t in r <==>
      t in st.tasks && (projectId == 0 || t.projectId == projectId) && (versionId == 0 || t.goVersion == versionId)
    ensures TaskIdsUnique(st.tasks) ==> TaskIdsUnique(r)
  {
    TasksWhere(st.tasks, projectId, versionId)
  }

  /** The toolchains recorded under a version string, in order; "" matches them all. */
  function VersionsNamed(vs: seq<GoVersion>, version: string): (r: seq<GoVersion>)
    ensures forall v :: v in r <==> v in vs && (version == "" || v.version == version)
    ensures |r| == 0 <==> forall v :: v in vs ==> version != "" && v.version != version
  {
    if |vs| == 0 then []
    else
      var rest := VersionsNamed(vs[1..], version);
      assert forall v :: v in vs <==> v == vs[0] || v in vs[1..];
      if version == "" || vs[0].version == version then
        assert vs[0] in vs;
        [vs[0]] + rest
      else rest
  }

  /** Toolchains recorded under a version string; an empty string lists them all. */
  function GoVersionList(st: Store, version: string): (r: seq<GoVersion>)
    ensures forall v :: v in r <==> v in st.versions && (version == "" || v.version == version)
    ensures |r| == 0 <==> forall v :: v in st.versions ==> version != "" && v.version != version
  {
    VersionsNamed(st.versions, version)
  }

  /** The projects whose id is not `id`, in order. */
  function ProjectsWithout(ps: seq<Project>, id: int): (r: seq<Project>)
    ensures forall p :: p in r <==> p in ps && p.id != id
  {
    if |ps| == 0 then []
    else
      var rest := ProjectsWithout(ps[1..], id);
      assert forall p :: p in ps <==> p == ps[0] || p in ps[1..];
      if ps[0].id != id then [ps[0]] + rest else rest
  }

  /** The toolchains whose id is not `id`, in order. */
  function VersionsWithout(vs: seq<GoVersion>, id: int): (r: seq<GoVersion>)
    ensures forall v :: v in r <==> v in vs && v.id != id
  {
    if |vs| == 0 then []
    else
      var rest := VersionsWithout(vs[1..], id);
      assert forall v :: v in vs <==> v == vs[0] || v in vs[1..];
      if vs[0].id != id then [vs[0]] + rest else rest
  }

  /** A run as it is inserted by a trigger: status `Init`, nothing recorded yet. */
  function NewRun(id: int, taskId: int): Run
  {
    Run(id, taskId, Init, "", "", "")
  }

  /** Some run already carries this primary key. */
  predicate RunIdTaken(runs: seq<Run>, id: int)
  {
    |runs| > 0 && (runs[0].id == id || RunIdTaken(runs[1..], id))
  }

  /** Ids all below a bound leave the bound free. */
  lemma {:induction false} RunIdFreeAbove(runs: seq<Run>, bound: int)
    requires forall k :: 0 <= k < |runs| ==> runs[k].id < bound
    ensures !RunIdTaken(runs, bound)
  {
    if |runs| > 0 {
      assert runs[0].id < bound;
      assert forall k :: 0 <= k < |runs[1..]| ==> runs[1..][k].id == runs[k + 1].id;
      RunIdFreeAbove(runs[1..], bound);
    }
  }

  /** `RunIdTaken` is exactly "some row has this id". */
  lemma {:induction false} RunIdTakenSpec(runs: seq<Run>, id: int)
    ensures RunIdTaken(runs, id) <==> exists k :: 0 <= k < |runs| && runs[k].id == id
  {
    if |runs| > 0 {
      RunIdTakenSpec(runs[1..], id);
      if RunIdTaken(runs[1..], id) {
        var k :| 0 <= k < |runs| - 1 && runs[1..][k].id == id;
        assert runs[k + 1].id == id;
      }
      if exists k :: 0 <= k < |runs| && runs[k].id == id {
        var k :| 0 <= k < |runs| && runs[k].id == id;
        if k > 0 {
          assert runs[1..][k - 1].id == id;
        }
      }
    }
  }

  /** Inserting a run; a primary-key clash is a store error and changes nothing. */
  function InsertRun(st: Store, r: Run): (res: Result<Store, string>)
    ensures res.Ok? <==> !RunIdTaken(st.runs, r.id)
    ensures res.Ok? ==> res.value == st.(runs := st.runs + [r])
  {
    if RunIdTaken(st.runs, r.id) then Err("duplicate run id")
    else Ok(st.(runs := st.runs + [r]))
  }
}

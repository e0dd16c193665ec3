/** The push webhook of logic/webhook.go: which tasks a push event triggers, and the run each
    trigger inserts. The triggers themselves run concurrently in the service; here the webhook
    returns the ids it would trigger and `Autobuild` is applied to each. */
module Webhook {
  import opened Results
  import opened Model

  /** The two fields of the hosting service's event body that are read. */
  datatype Event = Event(objectKind: string, ref: string)

  datatype HookError =
    | EmptyProjectName
    | BadBody
    | NotPush
    | NoBranch
    | UnknownProject

  datatype TriggerError = TaskNotFound | ProjectNotFound | VersionNotFound | StoreError

  const KindPush: string := "push"
  const HeadsPrefix: string := "refs/heads/"

  /** `getBranch`: the branch of a `refs/heads/` ref, or "" for any other ref. */
  function GetBranch(ref: string): (branch: string)
    ensures HeadsPrefix <= ref ==> HeadsPrefix + branch == ref
    ensures !(HeadsPrefix <= ref) ==> branch == ""
  {
    if HeadsPrefix <= ref then ref[|HeadsPrefix|..] else ""
  }

  /** The branch of a heads ref comes back unchanged. */
  lemma GetBranchHeads(b: string)
    ensures GetBranch(HeadsPrefix + b) == b
  {
    assert HeadsPrefix <= HeadsPrefix + b;
    assert (HeadsPrefix + b)[|HeadsPrefix|..] == b;
  }

  /** Only a `refs/heads/` ref with something after the prefix names a branch, so a tag ref,
      a bare `refs/heads/` or any malformed ref names none. */
  lemma GetBranchNoBranch(r: string)
    ensures GetBranch(r) != "" <==> HeadsPrefix <= r && |r| > |HeadsPrefix|
    ensures "refs/tags/" <= r ==> GetBranch(r) == ""
    ensures GetBranch(HeadsPrefix) == ""
  {
    if "refs/tags/" <= r {
      assert r[5] == "refs/tags/"[5] != HeadsPrefix[5];
    }
    assert HeadsPrefix[|HeadsPrefix|..] == "";
  }

  /** A task that a push to `branch` builds. */
  predicate Triggers(t: Task, branch: string)
  {
    t.branch == branch && t.autoBuild
  }

  /** No id occurs twice. */
  predicate NoDuplicates(ids: seq<int>)
  {
    forall i, j :: 0 <= i < j < |ids| ==> ids[i] != ids[j]
  }

  /** The ids of the tasks that a push to `branch` builds, in store order. With task ids
      unique, as primary keys are, each triggered task is listed once. */
  function AutoBuildIds(ts: seq<Task>, branch: string): (ids: seq<int>)
    ensures |ids| <= |ts|
    ensures forall id :: id in ids ==> exists t :: t in ts && t.id == id && Triggers(t, branch)
    ensures forall t :: t in ts && Triggers(t, branch) ==> t.id in ids
    ensures TaskIdsUnique(ts) ==> NoDuplicates(ids)
  {
    if |ts| == 0 then []
    else
      var rest := AutoBuildIds(ts[1..], branch);
      assert forall t :: t in ts <==> t == ts[0] || t in ts[1..];
      UniqueTail(ts);
      assert TaskIdsUnique(ts) ==> ts[0].id !in rest;
      NoDuplicatesCons(ts[0].id, rest);
      if Triggers(ts[0], branch) then [ts[0].id] + rest else rest
  }

  /** An id not yet listed can go in front of a list without repeats. */
  lemma NoDuplicatesCons(x: int, ids: seq<int>)
    ensures NoDuplicates(ids) && x !in ids ==> NoDuplicates([x] + ids)
  {
    if NoDuplicates(ids) && x !in ids {
      var r := [x] + ids;
      forall i, j | 0 <= i < j < |r| ensures r[i] != r[j] {
        assert r[j] == ids[j - 1];
        if i > 0 {
          assert r[i] == ids[i - 1];
        }
      }
    }
  }

  /** The positions of the tasks in `ts` carrying `id` that a push to `branch` builds. */
  function Hits(ts: seq<Task>, id: int, branch: string): set<int>
  {
    set k | 0 <= k < |ts| && ts[k].id == id && Triggers(ts[k], branch)
  }

  /** Each triggered task is triggered once: an id is listed as many times as there are tasks
      carrying it that a push to `branch` builds. */
  lemma {:induction false} AutoBuildIdsCount(ts: seq<Task>, branch: string, id: int)
    ensures multiset(AutoBuildIds(ts, branch))[id] == |Hits(ts, id, branch)|
    decreases |ts|
  {
    if |ts| == 0 {
      assert Hits(ts, id, branch) == {};
    } else {
      var n := |ts| - 1;
      var init, last := ts[..n], ts[n];
      assert ts == init + [last];
      AutoBuildIdsSnoc(init, last, branch);
      AutoBuildIdsCount(init, branch, id);
      HitsSnoc(init, last, id, branch);
      var tail: seq<int> := if Triggers(last, branch) then [last.id] else [];
      assert multiset(AutoBuildIds(init, branch) + tail)[id]
          == multiset(AutoBuildIds(init, branch))[id] + multiset(tail)[id];
    }
  }

  /** Appending a task adds its position when it carries `id` and is triggered. */
  lemma HitsSnoc(ts: seq<Task>, t: Task, id: int, branch: string)
    ensures |Hits(ts + [t], id, branch)| == |Hits(ts, id, branch)| + (if t.id == id && Triggers(t, branch) then 1 else 0)
  {
    var n := |ts|;
    var added: set<int> := if t.id == id && Triggers(t, branch) then {n} else {};
    HitsSnocSet(ts, t, id, branch);
    assert n !in Hits(ts, id, branch);
    assert |Hits(ts, id, branch) + added| == |Hits(ts, id, branch)| + |added|;
  }

  lemma HitsSnocSet(ts: seq<Task>, t: Task, id: int, branch: string)
    ensures Hits(ts + [t], id, branch)
         == Hits(ts, id, branch) + (if t.id == id && Triggers(t, branch) then {|ts|} else {})
  {
    var u := ts + [t];
    forall k | 0 <= k < |ts|
      ensures u[k] == ts[k]
    {
    }
    assert u[|ts|] == t;
  }

  /** Appending a task appends its id when it is triggered. */
  lemma {:induction false} AutoBuildIdsSnoc(ts: seq<Task>, t: Task, branch: string)
    ensures AutoBuildIds(ts + [t], branch) == AutoBuildIds(ts, branch) + (if Triggers(t, branch) then [t.id] else [])
    decreases |ts|
  {
    if |ts| == 0 {
      assert ts + [t] == [t];
    } else {
      assert (ts + [t])[1..] == ts[1..] + [t];
      AutoBuildIdsSnoc(ts[1..], t, branch);
    }
  }

  /** `DoWebHook`: the project name must be set, the body must parse, the event must be a push
      to a branch of a known project; then every task of that project that builds that branch
      automatically is triggered. Stored ids are never zero; a zero id would list every
      project's tasks, as zero means "no filter" to `ListTask`. */
  function DoWebHook(st: Store, projectName: string, body: Option<Event>): (r: Result<seq<int>, HookError>)
    ensures r == Err(EmptyProjectName) <==> projectName == ""
    ensures r == Err(BadBody) <==> projectName != "" && body.None?
    ensures r == Err(NotPush) <==> projectName != "" && body.Some? && body.value.objectKind != KindPush
    ensures r == Err(NoBranch) <==>
      projectName != "" && body.Some? && body.value.objectKind == KindPush && GetBranch(body.value.ref) == ""
    ensures r == Err(UnknownProject) <==>
      && projectName != "" && body.Some? && body.value.objectKind == KindPush
      && GetBranch(body.value.ref) != "" && GetProjectByName(st, projectName).None?
    ensures r.Ok? <==>
      && projectName != "" && body.Some? && body.value.objectKind == KindPush
      && GetBranch(body.value.ref) != "" && GetProjectByName(st, projectName).Some?
    ensures r.Ok? && GetProjectByName(st, projectName).value.id != 0 ==>
      var p := GetProjectByName(st, projectName).value;
      var branch := GetBranch(body.value.ref);
      && (forall id :: id in r.value ==>
            exists t :: t in st.tasks && t.id == id && t.projectId == p.id && Triggers(t, branch))
      && (forall t :: t in st.tasks && t.projectId == p.id && Triggers(t, branch) ==> t.id in r.value)
    ensures r.Ok? && TaskIdsUnique(st.tasks) ==> NoDuplicates(r.value)
  {
    if projectName == "" then Err(EmptyProjectName)
    else if body.None? then Err(BadBody)
    else if body.value.objectKind != KindPush then Err(NotPush)
    else
      var branch := GetBranch(body.value.ref);
      if branch == "" then Err(NoBranch)
      else match GetProjectByName(st, projectName)
        case None => Err(UnknownProject)
        case Some(p) =>
          var ts := ListTask(st, p.id, 0);
          var ids := AutoBuildIds(ts, branch);
          assert p.id != 0 ==> forall id :: id in ids ==>
            exists t :: t in st.tasks && t.id == id && t.projectId == p.id && Triggers(t, branch) by {
            forall id | p.id != 0 && id in ids
              ensures exists t :: t in st.tasks && t.id == id && t.projectId == p.id && Triggers(t, branch)
            {
              var t :| t in ts && t.id == id && Triggers(t, branch);
              assert t in st.tasks && t.projectId == p.id;
            }
          }
          Ok(ids)
  }

  /** A tag push triggers nothing and is refused. */
  lemma TagPushRefused(st: Store, projectName: string, ref: string)
    requires projectName != ""
    ensures DoWebHook(st, projectName, Some(Event("tag_push", ref))) == Err(NotPush)
  {
  }

  /** `autobuild`: the task, its project and its toolchain must all be found; then one run is
      inserted in `Init`. A failed lookup leaves the store as it was. */
  function Autobuild(st: Store, taskId: int, runId: int): (r: Result<Store, TriggerError>)
    ensures r.Ok? <==>
      && GetTask(st, taskId).Some?
      && GetProject(st, GetTask(st, taskId).value.projectId).Some?
      && GetGoVersion(st, GetTask(st, taskId).value.goVersion).Some?
      && !RunIdTaken(st.runs, runId)
    ensures r.Ok? ==> r.value == st.(runs := st.runs + [NewRun(runId, taskId)])
  {
    match GetTask(st, taskId)
    case None => Err(TaskNotFound)
    case Some(tk) =>
      if GetProject(st, tk.projectId).None? then Err(ProjectNotFound)
      else if GetGoVersion(st, tk.goVersion).None? then Err(VersionNotFound)
      else match InsertRun(st, NewRun(runId, taskId))
        case Err(_) => Err(StoreError)
        case Ok(st') => Ok(st')
  }

  /** Running the triggers one after another with fresh run ids `firstRunId`, `firstRunId + 1`, …;
      a trigger that fails is skipped, as its goroutine just logs and returns. */
  function TriggerAll(st: Store, ids: seq<int>, firstRunId: int): (st': Store)
    ensures st'.projects == st.projects && st'.tasks == st.tasks && st'.versions == st.versions
    ensures |st.runs| <= |st'.runs| <= |st.runs| + |ids|
    ensures st'.runs[..|st.runs|] == st.runs
    decreases |ids|
  {
    if |ids| == 0 then st
    else TriggerAll(TriggerOne(st, ids[0], firstRunId), ids[1..], firstRunId + 1)
  }

  /** One trigger's effect on the store: its run appended, or nothing when it fails. */
  function TriggerOne(st: Store, taskId: int, runId: int): (next: Store)
    ensures next == st || next == st.(runs := st.runs + [NewRun(runId, taskId)])
  {
    match Autobuild(st, taskId, runId)
    case Ok(s) => s
    case Err(_) => st
  }

  /** Every run a push inserts is an `Init` run of a task that builds that branch automatically. */
  lemma {:induction false} TriggerAllRuns(st: Store, ids: seq<int>, firstRunId: int)
    ensures var st' := TriggerAll(st, ids, firstRunId);
      forall k :: |st.runs| <= k < |st'.runs| ==> st'.runs[k].status == Init && st'.runs[k].taskId in ids
    decreases |ids|
  {
    if |ids| > 0 {
      var next := TriggerOne(st, ids[0], firstRunId);
      TriggerAllRuns(next, ids[1..], firstRunId + 1);
      var st' := TriggerAll(st, ids, firstRunId);
      assert st' == TriggerAll(next, ids[1..], firstRunId + 1);
      assert forall x :: x in ids[1..] ==> x in ids;
      if next != st {
        forall k | |st.runs| <= k < |st'.runs|
          ensures st'.runs[k].status == Init && st'.runs[k].taskId in ids
        {
          if k == |st.runs| {
            assert st'.runs[..|next.runs|] == next.runs;
            assert st'.runs[k] == next.runs[k] == NewRun(firstRunId, ids[0]);
          }
        }
      }
    }
  }

  /** The lookups `autobuild` makes before inserting a run all succeed. */
  predicate Resolves(st: Store, taskId: int)
  {
    && GetTask(st, taskId).Some?
    && GetProject(st, GetTask(st, taskId).value.projectId).Some?
    && GetGoVersion(st, GetTask(st, taskId).value.goVersion).Some?
  }

  /** Run ids below `bound` only. */
  predicate RunIdsBelow(st: Store, bound: int)
  {
    forall k :: 0 <= k < |st.runs| ==> st.runs[k].id < bound
  }

  lemma AutobuildFresh(st: Store, taskId: int, runId: int)
    requires Resolves(st, taskId) && RunIdsBelow(st, runId)
    ensures Autobuild(st, taskId, runId) == Ok(st.(runs := st.runs + [NewRun(runId, taskId)]))
  {
    RunIdFreeAbove(st.runs, runId);
  }

  /** When every triggered task resolves and run ids are fresh, each triggered task gets
      exactly one new run, in trigger order. */
  lemma {:induction false} TriggerAllComplete(st: Store, ids: seq<int>, firstRunId: int)
    requires forall k :: 0 <= k < |ids| ==> Resolves(st, ids[k])
    requires RunIdsBelow(st, firstRunId)
    ensures var st' := TriggerAll(st, ids, firstRunId);
      |st'.runs| == |st.runs| + |ids| && RunsAfter(st.runs, st'.runs, ids, firstRunId)
    decreases |ids|
  {
    if |ids| > 0 {
      var next := st.(runs := st.runs + [NewRun(firstRunId, ids[0])]);
      TriggerAllFresh(st, ids, firstRunId);
      TriggerAllComplete(next, ids[1..], firstRunId + 1);
      var st' := TriggerAll(next, ids[1..], firstRunId + 1);
      assert st'.runs[..|next.runs|] == next.runs;
      assert next.runs[|st.runs|] == NewRun(firstRunId, ids[0]);
      assert st'.runs[|st.runs|] == st'.runs[..|next.runs|][|st.runs|];
      RunsStep(st.runs, st'.runs, ids, firstRunId, |next.runs|);
    }
  }

  /** A first trigger that succeeds inserts its run and leaves the rest of the triggers
      resolving, with fresh run ids. */
  lemma TriggerAllFresh(st: Store, ids: seq<int>, firstRunId: int)
    requires |ids| > 0
    requires forall k :: 0 <= k < |ids| ==> Resolves(st, ids[k])
    requires RunIdsBelow(st, firstRunId)
    ensures var next := st.(runs := st.runs + [NewRun(firstRunId, ids[0])]);
      && TriggerAll(st, ids, firstRunId) == TriggerAll(next, ids[1..], firstRunId + 1)
      && RunIdsBelow(next, firstRunId + 1)
      && forall k :: 0 <= k < |ids[1..]| ==> Resolves(next, ids[1..][k])
  {
    var next := st.(runs := st.runs + [NewRun(firstRunId, ids[0])]);
    AutobuildFresh(st, ids[0], firstRunId);
    assert TriggerOne(st, ids[0], firstRunId) == next;
    forall k | 0 <= k < |ids[1..]|
      ensures Resolves(next, ids[1..][k])
    {
      assert ids[1..][k] == ids[k + 1];
      ResolvesIgnoresRuns(st, next.runs, ids[k + 1]);
    }
  }

  /** Whether a task resolves does not depend on the runs. */
  lemma ResolvesIgnoresRuns(st: Store, runs: seq<Run>, taskId: int)
    ensures Resolves(st.(runs := runs), taskId) == Resolves(st, taskId)
  {
    var st' := st.(runs := runs);
    assert st'.tasks == st.tasks && st'.projects == st.projects && st'.versions == st.versions;
  }

  /** After the `base` rows come one `Init` run per id, numbered from `firstRunId`. */
  predicate RunsAfter(base: seq<Run>, runs: seq<Run>, ids: seq<int>, firstRunId: int)
    requires |runs| == |base| + |ids|
  {
    forall k :: 0 <= k < |ids| ==> runs[|base| + k] == NewRun(firstRunId + k, ids[k])
  }

  /** The runs after `base` are the triggers' runs in order, given the first and the rest. */
  lemma RunsStep(base: seq<Run>, runs: seq<Run>, ids: seq<int>, firstRunId: int, mid: int)
    requires |ids| > 0 && |runs| == |base| + |ids| && mid == |base| + 1
    requires runs[|base|] == NewRun(firstRunId, ids[0])
    requires RunsAfter(runs[..mid], runs, ids[1..], firstRunId + 1)
    ensures RunsAfter(base, runs, ids, firstRunId)
  {
    forall k | 0 <= k < |ids|
      ensures runs[|base| + k] == NewRun(firstRunId + k, ids[k])
    {
      if k > 0 {
        assert runs[mid + (k - 1)] == NewRun(firstRunId + 1 + (k - 1), ids[1..][k - 1]);
      }
    }
  }
}

/** Workflow-run reshaping shared by both HTTP servers. The two servers differ only in where
    a build's branch comes from, so the reshaping takes that as a parameter. */
module Builds {
  import opened Common
  import Sorting

  /** An entry of the upstream `workflow_runs` array; timestamps are in milliseconds and
      are absent when the upstream value is null or empty. */
  datatype WorkflowRun = WorkflowRun(
    id: int, name: string, headBranch: string, displayTitle: Option<string>,
    status: string, conclusion: Option<string>, createdAt: Option<int>, updatedAt: Option<int>,
    actorLogin: string, htmlUrl: string)

  /** A build as the frontend receives it from the active or the recent endpoint. */
  datatype BuildRun =
    | ActiveBuild(
        id: int, branch: string, status: string, startedAt: Option<int>,
        commitMessage: Option<string>, author: string, url: string)
    | RecentBuild(
        id: int, branch: string, status: string, conclusion: Option<string>,
        startedAt: Option<int>, completedAt: Option<int>, duration: Option<int>,
        commitMessage: Option<string>, author: string, url: string)

  /** The JSON body of both builds endpoints. */
  datatype BuildsBody = BuildsBody(success: bool, builds: seq<BuildRun>)

  const BuildWorkflowName := "Build and Release APK"

  predicate IsBuildWorkflow(run: WorkflowRun) {
    run.name == BuildWorkflowName
  }

  /** `Math.round((updated_at - created_at) / 1000)` when both timestamps are present, else
      null. `Math.round` rounds halves up, which on integers is floor division after adding
      500; the division of a whole number of milliseconds by 1000 never lands beside a
      half, so the floating-point path gives the same value. */
  function DurationSeconds(createdAt: Option<int>, updatedAt: Option<int>): (d: Option<int>)
    ensures d.Some? <==> createdAt.Some? && updatedAt.Some?
    ensures d.Some? ==>
      1000 * d.value - 500 <= updatedAt.value - createdAt.value < 1000 * d.value + 500
  {
    if updatedAt.Some? && createdAt.Some? then
      Some((updatedAt.value - createdAt.value + 500) / 1000)
    else None
  }

  function ToActiveBuild(run: WorkflowRun, branch: string): BuildRun {
    ActiveBuild(run.id, branch, run.status, run.createdAt, run.displayTitle, run.actorLogin, run.htmlUrl)
  }

  function ToRecentBuild(run: WorkflowRun, branch: string): BuildRun {
    RecentBuild(
      run.id, branch, run.status, run.conclusion, run.createdAt, run.updatedAt,
      DurationSeconds(run.createdAt, run.updatedAt), run.displayTitle, run.actorLogin, run.htmlUrl)
  }

  /** `runs.filter(r => r.name === 'Build and Release APK')`. */
  function BuildRuns(runs: seq<WorkflowRun>): (kept: seq<WorkflowRun>)
    ensures forall run :: run in kept <==> run in runs && IsBuildWorkflow(run)
  {
    Sorting.Filter(IsBuildWorkflow, runs)
  }

  lemma BuildRunsAppend(a: seq<WorkflowRun>, b: seq<WorkflowRun>)
    ensures BuildRuns(a + b) == BuildRuns(a) + BuildRuns(b)
  {
    Sorting.FilterAppend(IsBuildWorkflow, a, b);
  }

  /** The active-builds list, with the branch of each run given by `branchOf`. */
  function ActiveBuilds(runs: seq<WorkflowRun>, branchOf: WorkflowRun -> string): (builds: seq<BuildRun>)
    ensures |builds| == |BuildRuns(runs)|
    ensures forall k :: 0 <= k < |builds| ==>
      builds[k] == ToActiveBuild(BuildRuns(runs)[k], branchOf(BuildRuns(runs)[k]))
  {
    var kept := BuildRuns(runs);
    seq(|kept|, k requires 0 <= k < |kept| => ToActiveBuild(kept[k], branchOf(kept[k])))
  }

  /** The recent-builds list, with the branch of each run given by `branchOf`. */
  function RecentBuilds(runs: seq<WorkflowRun>, branchOf: WorkflowRun -> string): (builds: seq<BuildRun>)
    ensures |builds| == |BuildRuns(runs)|
    ensures forall k :: 0 <= k < |builds| ==>
      builds[k] == ToRecentBuild(BuildRuns(runs)[k], branchOf(BuildRuns(runs)[k]))
  {
    var kept := BuildRuns(runs);
    seq(|kept|, k requires 0 <= k < |kept| => ToRecentBuild(kept[k], branchOf(kept[k])))
  }

  /** Only runs of the build workflow produce builds, every such run produces one, and
      upstream order is kept. */
  lemma {:induction false} RecentBuildsExactly(runs: seq<WorkflowRun>, branchOf: WorkflowRun -> string)
    ensures forall b :: b in RecentBuilds(runs, branchOf) ==>
      exists run :: run in runs && IsBuildWorkflow(run) && b == ToRecentBuild(run, branchOf(run))
    ensures forall run :: run in runs && IsBuildWorkflow(run) ==>
      ToRecentBuild(run, branchOf(run)) in RecentBuilds(runs, branchOf)
    ensures forall a, b :: RecentBuilds(a + b, branchOf) == RecentBuilds(a, branchOf) + RecentBuilds(b, branchOf)
  {
    var kept := BuildRuns(runs);
    var builds := RecentBuilds(runs, branchOf);
    forall b | b in builds
      ensures exists run :: run in runs && IsBuildWorkflow(run) && b == ToRecentBuild(run, branchOf(run))
    {
      var k :| 0 <= k < |builds| && builds[k] == b;
      assert kept[k] in kept;
    }
    forall run | run in runs && IsBuildWorkflow(run)
      ensures ToRecentBuild(run, branchOf(run)) in builds
    {
      var k :| 0 <= k < |kept| && kept[k] == run;
      assert builds[k] == ToRecentBuild(run, branchOf(run));
    }
    forall a, b ensures RecentBuilds(a + b, branchOf) == RecentBuilds(a, branchOf) + RecentBuilds(b, branchOf) {
      BuildRunsAppend(a, b);
    }
  }

  /** The same three facts for the active-builds list. */
  lemma {:induction false} ActiveBuildsExactly(runs: seq<WorkflowRun>, branchOf: WorkflowRun -> string)
    ensures forall b :: b in ActiveBuilds(runs, branchOf) ==>
      exists run :: run in runs && IsBuildWorkflow(run) && b == ToActiveBuild(run, branchOf(run))
    ensures forall run :: run in runs && IsBuildWorkflow(run) ==>
      ToActiveBuild(run, branchOf(run)) in ActiveBuilds(runs, branchOf)
    ensures forall a, b :: ActiveBuilds(a + b, branchOf) == ActiveBuilds(a, branchOf) + ActiveBuilds(b, branchOf)
  {
    var kept := BuildRuns(runs);
    var builds := ActiveBuilds(runs, branchOf);
    forall b | b in builds
      ensures exists run :: run in runs && IsBuildWorkflow(run) && b == ToActiveBuild(run, branchOf(run))
    {
      var k :| 0 <= k < |builds| && builds[k] == b;
      assert kept[k] in kept;
    }
    forall run | run in runs && IsBuildWorkflow(run)
      ensures ToActiveBuild(run, branchOf(run)) in builds
    {
      var k :| 0 <= k < |kept| && kept[k] == run;
      assert builds[k] == ToActiveBuild(run, branchOf(run));
    }
    forall a, b ensures ActiveBuilds(a + b, branchOf) == ActiveBuilds(a, branchOf) + ActiveBuilds(b, branchOf) {
      BuildRunsAppend(a, b);
    }
  }
}

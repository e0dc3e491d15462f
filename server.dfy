/** The local Express server (`server.js`): the same endpoints as the serverless API, except
    that a build's branch is always the run's head branch. */
module Server {
  import opened Common
  import opened Builds
  import ApiIndex

  function HeadBranch(run: WorkflowRun): string {
    run.headBranch
  }

  /** `GET /api/builds/active` with `branch: run.head_branch`. */
  function ActiveBuildsEndpoint(fetch: Fetch<seq<WorkflowRun>>): (r: Response<BuildsBody>)
    ensures r.status == StatusOk
    ensures r.body.success <==> fetch.Fetched?
    ensures fetch.FetchFailed? ==> r.body.builds == []
    ensures fetch.Fetched? ==> r.body.builds == ActiveBuilds(fetch.data, HeadBranch)
  {
    match fetch
    case Fetched(runs) => Response(StatusOk, BuildsBody(true, ActiveBuilds(runs, HeadBranch)))
    case FetchFailed(_) => Response(StatusOk, BuildsBody(false, []))
  }

  /** `GET /api/builds/recent` with `branch: run.head_branch`. */
  function RecentBuildsEndpoint(fetch: Fetch<seq<WorkflowRun>>): (r: Response<BuildsBody>)
    ensures r.status == StatusOk
    ensures r.body.success <==> fetch.Fetched?
    ensures fetch.FetchFailed? ==> r.body.builds == []
    ensures fetch.Fetched? ==> r.body.builds == RecentBuilds(fetch.data, HeadBranch)
  {
    match fetch
    case Fetched(runs) => Response(StatusOk, BuildsBody(true, RecentBuilds(runs, HeadBranch)))
    case FetchFailed(_) => Response(StatusOk, BuildsBody(false, []))
  }

  /** The two servers answer the builds endpoints alike except for the branch of each build,
      and they report the same branch exactly when the title names none or names the head
      branch. */
  lemma {:induction false} ServersDifferOnlyInBranch(fetch: Fetch<seq<WorkflowRun>>)
    ensures var local := RecentBuildsEndpoint(fetch);
            var api := ApiIndex.RecentBuildsEndpoint(fetch);
            local.status == api.status && local.body.success == api.body.success
            && |local.body.builds| == |api.body.builds|
            && forall k :: 0 <= k < |local.body.builds| ==>
                 local.body.builds[k] == api.body.builds[k].(branch := local.body.builds[k].branch)
    ensures var local := ActiveBuildsEndpoint(fetch);
            var api := ApiIndex.ActiveBuildsEndpoint(fetch);
            local.status == api.status && local.body.success == api.body.success
            && |local.body.builds| == |api.body.builds|
            && forall k :: 0 <= k < |local.body.builds| ==>
                 local.body.builds[k] == api.body.builds[k].(branch := local.body.builds[k].branch)
    ensures forall run: WorkflowRun ::
      HeadBranch(run) == ApiIndex.RunBranch(run)
      <==> ApiIndex.TitleBranch(run.displayTitle) in {None, Some(run.headBranch)}
  {
  }

  /** A run started on `main` whose title names `feature/login` is reported on `main` by the
      local server and on `feature/login` by the serverless API. */
  lemma BranchesDisagreeExample(run: WorkflowRun)
    requires run.headBranch == "main"
    requires run.displayTitle == Some("APK Build from branch: feature/login")
    ensures HeadBranch(run) == "main" && ApiIndex.RunBranch(run) == "feature/login"
  {
    ApiIndex.WorkflowTitleExample(run.displayTitle.value);
  }
}

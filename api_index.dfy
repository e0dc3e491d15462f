/** The serverless API (`api/index.js`): like the local server, except that a build's branch
    is recovered from the run's display title when it matches
    `/APK Build from branch:\s*(.+)/`, and is the run's head branch otherwise. */
module ApiIndex {
  import opened Common
  import opened Strings
  import opened Builds

  const BranchMarker := "APK Build from branch:"

  /** Where greedy `\s*` starting at `j` stops: the first index at or after `j` that is not
      whitespace, or the end of the text. */
  function WhitespaceEnd(t: string, j: nat): (k: nat)
    requires j <= |t|
    decreases |t| - j
    ensures j <= k <= |t|
    ensures forall m :: j <= m < k ==> IsWhitespace(t[m])
    ensures k < |t| ==> !IsWhitespace(t[k])
  {
    if j < |t| && IsWhitespace(t[j]) then WhitespaceEnd(t, j + 1) else j
  }

  /** Where greedy `.+` starting at `j` stops: the first line terminator at or after `j`,
      or the end of the text. */
  function LineEnd(t: string, j: nat): (k: nat)
    requires j <= |t|
    decreases |t| - j
    ensures j <= k <= |t|
    ensures forall m :: j <= m < k ==> !IsLineTerminator(t[m])
    ensures k < |t| ==> IsLineTerminator(t[k])
  {
    if j < |t| && !IsLineTerminator(t[j]) then LineEnd(t, j + 1) else j
  }

  /** `\s*(.+)` at index `j`, with `\s*` having consumed up to `p`: `.+` is tried at `p`,
      and on failure `\s*` gives back one character and `.+` is tried again, down to `j`. */
  function BacktrackCapture(t: string, j: nat, p: nat): (g: Option<string>)
    requires j <= p <= |t|
    decreases p - j
    ensures g.Some? ==> exists q :: (j <= q <= p && q < |t| && !IsLineTerminator(t[q])
                                     && g.value == t[q..LineEnd(t, q)]
                                     && forall m :: q < m <= p && m < |t| ==> IsLineTerminator(t[m]))
    ensures g.None? ==> forall q :: j <= q <= p && q < |t| ==> IsLineTerminator(t[q])
  {
    if p < |t| && !IsLineTerminator(t[p]) then Some(t[p..LineEnd(t, p)])
    else if p == j then None
    else BacktrackCapture(t, j, p - 1)
  }

  /** The group `(.+)` of `\s*(.+)` matched at index `j`, if that match succeeds. */
  function CaptureAt(t: string, j: nat): Option<string>
    requires j <= |t|
  {
    BacktrackCapture(t, j, WhitespaceEnd(t, j))
  }

  /** `String.prototype.match` without the global flag: the first marker occurrence at or
      after `from` from which the rest of the pattern matches decides the group. */
  function MatchFrom(t: string, from: nat): Option<string>
    decreases |t| - from
  {
    match IndexOfFrom(t, BranchMarker, from)
    case None => None
    case Some(i) =>
      match CaptureAt(t, i + |BranchMarker|)
      case Some(g) => Some(g)
      case None => MatchFrom(t, i + 1)
  }

  /** `display_title?.match(...)`, then `branchMatch[1].trim()`. */
  function TitleBranch(displayTitle: Option<string>): Option<string> {
    match displayTitle
    case None => None
    case Some(t) =>
      match MatchFrom(t, 0)
      case None => None
      case Some(g) => Some(Trim(g))
  }

  /** The branch reported for a run: the title's branch when the title matches, else
      `head_branch`. */
  function RunBranch(run: WorkflowRun): (b: string)
    ensures TitleBranch(run.displayTitle).None? ==> b == run.headBranch
    ensures TitleBranch(run.displayTitle).Some? ==> b == TitleBranch(run.displayTitle).value
  {
    match TitleBranch(run.displayTitle)
    case Some(b) => b
    case None => run.headBranch
  }

  /** A title whose first marker, at `i`, is followed by whitespace up to `w` and then by a
      line `title[w..e]` that starts with a non-space character names the branch: that
      line, with trailing space trimmed. */
  lemma TitleNamesBranch(title: string, i: nat, w: nat, e: nat)
    requires IndexOf(title, BranchMarker) == Some(i)
    requires i + |BranchMarker| <= w < e <= |title|
    requires forall m :: i + |BranchMarker| <= m < w ==> IsWhitespace(title[m])
    requires !IsWhitespace(title[w])
    requires forall m :: w <= m < e ==> !IsLineTerminator(title[m])
    requires e < |title| ==> IsLineTerminator(title[e])
    ensures TitleBranch(Some(title)) == Some(TrimEnd(title[w..e]))
  {
    LineAfterMarker(title, i, w, e);
    TrimStartKeeps(title[w..e]);
  }

  lemma LineAfterMarker(title: string, i: nat, w: nat, e: nat)
    requires IndexOf(title, BranchMarker) == Some(i)
    requires i + |BranchMarker| <= w < e <= |title|
    requires forall m :: i + |BranchMarker| <= m < w ==> IsWhitespace(title[m])
    requires !IsWhitespace(title[w])
    requires forall m :: w <= m < e ==> !IsLineTerminator(title[m])
    requires e < |title| ==> IsLineTerminator(title[e])
    ensures MatchFrom(title, 0) == Some(title[w..e])
    ensures !IsWhitespace(title[w..e][0])
  {
    CaptureLine(title, i + |BranchMarker|, w, e);
    FirstMarkerDecides(title, i, title[w..e]);
  }

  lemma TrimStartKeeps(line: string)
    requires line != [] && !IsWhitespace(line[0])
    ensures TrimStart(line) == line
  {
  }

  /** When the pattern matches after the first marker, that match is the one returned. */
  lemma FirstMarkerDecides(title: string, i: nat, g: string)
    requires IndexOf(title, BranchMarker) == Some(i)
    requires i + |BranchMarker| <= |title|
    requires CaptureAt(title, i + |BranchMarker|) == Some(g)
    ensures MatchFrom(title, 0) == Some(g)
  {
  }

  /** `\s*(.+)` at `j` over whitespace up to `w` and a line `t[w..e]` captures that line. */
  lemma CaptureLine(t: string, j: nat, w: nat, e: nat)
    requires j <= w < e <= |t|
    requires forall m :: j <= m < w ==> IsWhitespace(t[m])
    requires !IsWhitespace(t[w])
    requires forall m :: w <= m < e ==> !IsLineTerminator(t[m])
    requires e < |t| ==> IsLineTerminator(t[e])
    ensures CaptureAt(t, j) == Some(t[w..e])
  {
    WhitespaceRun(t, j, w);
    LineRun(t, w, e);
    assert !IsLineTerminator(t[w]);
  }

  /** `\s*` from `j` stops at `w` when only whitespace lies between and `t[w]` is not. */
  lemma {:induction false} WhitespaceRun(t: string, j: nat, w: nat)
    requires j <= w <= |t|
    requires forall m :: j <= m < w ==> IsWhitespace(t[m])
    requires w < |t| ==> !IsWhitespace(t[w])
    ensures WhitespaceEnd(t, j) == w
    decreases w - j
  {
    if j < w {
      WhitespaceRun(t, j + 1, w);
    }
  }

  /** `.+` from `j` stops at `e` when no line terminator lies between and `t[e]` is one. */
  lemma {:induction false} LineRun(t: string, j: nat, e: nat)
    requires j <= e <= |t|
    requires forall m :: j <= m < e ==> !IsLineTerminator(t[m])
    requires e < |t| ==> IsLineTerminator(t[e])
    ensures LineEnd(t, j) == e
    decreases e - j
  {
    if j < e {
      LineRun(t, j + 1, e);
    }
  }

  /** A title without the marker, or no title at all, leaves the head branch in place. */
  lemma TitleWithoutMarker(run: WorkflowRun)
    requires run.displayTitle.None? || IndexOf(run.displayTitle.value, BranchMarker).None?
    ensures RunBranch(run) == run.headBranch
  {
  }

  /** The title the build workflow writes yields the branch it names. */
  lemma WorkflowTitleExample(title: string)
    requires title == "APK Build from branch: feature/login"
    ensures TitleBranch(Some(title)) == Some("feature/login")
  {
    WorkflowTitleShape(title);
    TitleNamesBranch(title, 0, 23, |title|);
    TrimEndKeeps(title[23..|title|]);
  }

  lemma TrimEndKeeps(line: string)
    requires line != [] && !IsWhitespace(line[|line| - 1])
    ensures TrimEnd(line) == line
  {
  }

  lemma WorkflowTitleShape(title: string)
    requires title == "APK Build from branch: feature/login"
    ensures IndexOf(title, BranchMarker) == Some(0)
    ensures IsWhitespace(title[22]) && !IsWhitespace(title[23])
    ensures forall m :: 23 <= m < |title| ==> !IsLineTerminator(title[m])
    ensures title[23..|title|] == "feature/login"
    ensures !IsWhitespace(title[23..|title|][|title| - 24])
  {
    assert OccursAt(title, BranchMarker, 0);
  }

  /** A title that ends right after its first marker and one space matches: `\s*` gives the
      space back so that `.+` can take it, and the trimmed branch is empty. */
  lemma MarkerAndSpaceGivesEmptyBranch(title: string, i: nat)
    requires IndexOf(title, BranchMarker) == Some(i)
    requires |title| == i + |BranchMarker| + 1
    requires IsWhitespace(title[|title| - 1]) && !IsLineTerminator(title[|title| - 1])
    ensures TitleBranch(Some(title)) == Some("")
  {
    var j := i + |BranchMarker|;
    SpaceCapture(title, j);
    FirstMarkerDecides(title, i, title[j..j + 1]);
    assert TrimStart(title[j..j + 1]) == [] by {
      assert title[j..j + 1][1..] == [];
    }
  }

  /** `\s*(.+)` on a single trailing space captures that space. */
  lemma SpaceCapture(t: string, j: nat)
    requires j + 1 == |t| && IsWhitespace(t[j]) && !IsLineTerminator(t[j])
    ensures CaptureAt(t, j) == Some(t[j..j + 1])
  {
    WhitespaceRun(t, j, j + 1);
    LineRun(t, j, j + 1);
    assert BacktrackCapture(t, j, j + 1) == BacktrackCapture(t, j, j);
  }

  /** A title that ends right after its only marker and a line terminator does not match:
      `.+` cannot start on a line terminator. */
  lemma MarkerAndLineBreakHasNoBranch(title: string, i: nat)
    requires IndexOf(title, BranchMarker) == Some(i)
    requires IndexOfFrom(title, BranchMarker, i + 1).None?
    requires |title| == i + |BranchMarker| + 1
    requires IsWhitespace(title[|title| - 1]) && IsLineTerminator(title[|title| - 1])
    ensures TitleBranch(Some(title)) == None
  {
    var j := i + |BranchMarker|;
    WhitespaceRun(title, j, j + 1);
    assert BacktrackCapture(title, j, j) == None;
    assert CaptureAt(title, j) == None;
    assert MatchFrom(title, i + 1) == None;
    assert IndexOfFrom(title, BranchMarker, 0) == Some(i);
    assert MatchFrom(title, 0) == None;
  }

  /** When only a space follows the marker the title still matches, so the reported branch
      is empty, not the head branch. */
  lemma TrailingSpaceGivesEmptyBranch(run: WorkflowRun)
    requires run.displayTitle == Some("APK Build from branch: ")
    ensures RunBranch(run) == ""
  {
    var title := run.displayTitle.value;
    assert OccursAt(title, BranchMarker, 0);
    assert title[22] == ' ';
    MarkerAndSpaceGivesEmptyBranch(title, 0);
  }

  /** When only a line break follows the marker, the head branch is kept. */
  lemma LineBreakKeepsHeadBranch(run: WorkflowRun)
    requires run.displayTitle == Some("APK Build from branch:\n")
    ensures RunBranch(run) == run.headBranch
  {
    var title := run.displayTitle.value;
    assert OccursAt(title, BranchMarker, 0);
    assert title[1..23][0] == 'P';
    assert !OccursAt(title, BranchMarker, 1);
    assert IndexOfFrom(title, BranchMarker, 2).None?;
    assert IndexOfFrom(title, BranchMarker, 1).None?;
    assert title[22] == '\n';
    MarkerAndLineBreakHasNoBranch(title, 0);
  }

  /** `GET /api/builds/active`: the in-progress build runs, branches taken from titles; an
      upstream failure answers 200 with `success: false` and no builds. */
  function ActiveBuildsEndpoint(fetch: Fetch<seq<WorkflowRun>>): (r: Response<BuildsBody>)
    ensures r.status == StatusOk
    ensures r.body.success <==> fetch.Fetched?
    ensures fetch.FetchFailed? ==> r.body.builds == []
    ensures fetch.Fetched? ==> r.body.builds == ActiveBuilds(fetch.data, RunBranch)
  {
    match fetch
    case Fetched(runs) => Response(StatusOk, BuildsBody(true, ActiveBuilds(runs, RunBranch)))
    case FetchFailed(_) => Response(StatusOk, BuildsBody(false, []))
  }

  /** `GET /api/builds/recent`: the recent build runs with their durations, branches taken
      from titles; an upstream failure answers 200 with `success: false` and no builds. */
  function RecentBuildsEndpoint(fetch: Fetch<seq<WorkflowRun>>): (r: Response<BuildsBody>)
    ensures r.status == StatusOk
    ensures r.body.success <==> fetch.Fetched?
    ensures fetch.FetchFailed? ==> r.body.builds == []
    ensures fetch.Fetched? ==> r.body.builds == RecentBuilds(fetch.data, RunBranch)
  {
    match fetch
    case Fetched(runs) => Response(StatusOk, BuildsBody(true, RecentBuilds(runs, RunBranch)))
    case FetchFailed(_) => Response(StatusOk, BuildsBody(false, []))
  }
}

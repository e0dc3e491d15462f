/** The main page (`public/script.js`): releases with a branch filter and four sort modes,
    the latest APK of each release with older ones disclosed progressively, and a panel of
    builds in progress that polls while builds are running. */
module MainPage {
  import opened Common
  import opened Strings
  import opened Releases
  import opened Builds
  import opened Presenter
  import Sorting

  // ---------------------------------------------------------------------------------------
  // Sort modes

  const DateDesc := "date-desc"
  const DateAsc := "date-asc"
  const NameAsc := "name-asc"
  const NameDesc := "name-desc"

  function CompareDateDesc(a: Release, b: Release): int { b.publishedAt - a.publishedAt }
  function CompareDateAsc(a: Release, b: Release): int { a.publishedAt - b.publishedAt }
  function CompareNameAsc(a: Release, b: Release): int { CompareStrings(a.name, b.name) }
  function CompareNameDesc(a: Release, b: Release): int { CompareStrings(b.name, a.name) }
  function CompareUnsorted(a: Release, b: Release): int { 0 }

  /** The comparator the `switch` on `currentFilters.sort` selects. */
  function SortComparator(mode: string): (Release, Release) -> int {
    if mode == DateDesc then CompareDateDesc
    else if mode == DateAsc then CompareDateAsc
    else if mode == NameAsc then CompareNameAsc
    else if mode == NameDesc then CompareNameDesc
    else CompareUnsorted
  }

  lemma SortComparatorTotalPreorder(mode: string)
    ensures Sorting.TotalPreorder(SortComparator(mode))
  {
    if mode == NameAsc || mode == NameDesc {
      forall x: string, y: string, z: string ensures
        && (CompareStrings(x, y) <= 0 || CompareStrings(y, x) <= 0)
        && (CompareStrings(x, y) <= 0 && CompareStrings(y, z) <= 0 ==> CompareStrings(x, z) <= 0)
      {
        CompareStringsIsOrder(x, y, z);
        CompareStringsIsOrder(y, x, x);
      }
    }
  }

  /** What each sort mode promises of the list it returns: the same releases, newest or
      oldest first, by name up or down, or, for any other mode, the order as it was. */
  lemma {:induction false} SortModeOrders(releases: seq<Release>, mode: string)
    ensures multiset(Sorting.SortBy(releases, SortComparator(mode))) == multiset(releases)
    ensures var r := Sorting.SortBy(releases, SortComparator(mode));
      && (mode == DateDesc ==> forall i, j :: 0 <= i < j < |r| ==> r[i].publishedAt >= r[j].publishedAt)
      && (mode == DateAsc ==> forall i, j :: 0 <= i < j < |r| ==> r[i].publishedAt <= r[j].publishedAt)
      && (mode == NameAsc ==> forall i, j :: 0 <= i < j < |r| ==> !LexLess(r[j].name, r[i].name))
      && (mode == NameDesc ==> forall i, j :: 0 <= i < j < |r| ==> !LexLess(r[i].name, r[j].name))
      && (mode !in {DateDesc, DateAsc, NameAsc, NameDesc} ==> r == releases)
  {
    var cmp := SortComparator(mode);
    var r := Sorting.SortBy(releases, cmp);
    if mode in {DateDesc, DateAsc, NameAsc, NameDesc} {
      SortComparatorTotalPreorder(mode);
      Sorting.SortBySorted(releases, cmp);
      forall i, j | 0 <= i < j < |r| && mode in {NameAsc, NameDesc}
        ensures mode == NameAsc ==> !LexLess(r[j].name, r[i].name)
        ensures mode == NameDesc ==> !LexLess(r[i].name, r[j].name)
      {
        assert cmp(r[i], r[j]) <= 0;
        LexAsymmetric(r[i].name, r[j].name);
        LexIrreflexive(r[i].name);
      }
    } else {
      Sorting.SortByAllEqual(releases, cmp);
    }
  }

  /** With ties on the sort key, releases keep the order the server sent. */
  lemma SortModeStable(releases: seq<Release>, mode: string, e: Release)
    ensures Sorting.Ties(Sorting.SortBy(releases, SortComparator(mode)), SortComparator(mode), e)
      == Sorting.Ties(releases, SortComparator(mode), e)
  {
    SortComparatorTotalPreorder(mode);
    Sorting.SortByStable(releases, SortComparator(mode), e);
  }

  // ---------------------------------------------------------------------------------------
  // The APK list of a release card

  const InitialShow := 3
  const LoadMoreIncrement := 5

  /** The files part of a card: the first file as latest, the rest as older builds, which of
      those are visible at first, and the load-more button's count if there is one. */
  datatype CardFiles = CardFiles(
    latest: ApkFile, older: seq<ApkFile>, initiallyVisible: seq<bool>, loadMore: Option<nat>)

  function Min(a: int, b: int): int { if a <= b then a else b }

  /** `createReleaseCard`'s split of `apkFiles`, taken in array order without sorting. */
  function SplitFiles(files: seq<ApkFile>): (c: Option<CardFiles>)
    ensures c.None? <==> files == []
    ensures c.Some? ==> [c.value.latest] + c.value.older == files
    ensures c.Some? ==>
      && |c.value.initiallyVisible| == |c.value.older|
      && forall i :: 0 <= i < |c.value.older| ==> (c.value.initiallyVisible[i] <==> i < InitialShow)
    ensures c.Some? ==> (c.value.loadMore.Some? <==> |files| - 1 > InitialShow)
    ensures c.Some? && c.value.loadMore.Some? ==>
      1 <= c.value.loadMore.value <= LoadMoreIncrement
      && c.value.loadMore.value == Min(|files| - 1 - InitialShow, LoadMoreIncrement)
  {
    if files == [] then None
    else
      var older := files[1..];
      Some(CardFiles(
        files[0], older,
        seq(|older|, i requires 0 <= i < |older| => i < InitialShow),
        if |older| > InitialShow then Some(Min(|older| - InitialShow, LoadMoreIncrement)) else None))
  }

  /** The `forEach` of `renderReleases`: one card's files per release, in order. */
  method SplitEach(shown: seq<Release>) returns (cards: seq<Option<CardFiles>>)
    ensures |cards| == |shown| && forall k :: 0 <= k < |cards| ==> cards[k] == SplitFiles(shown[k].apkFiles)
  {
    cards := [];
    for k := 0 to |shown|
      invariant |cards| == k
      invariant forall m :: 0 <= m < k ==> cards[m] == SplitFiles(shown[m].apkFiles)
    {
      cards := cards + [SplitFiles(shown[k].apkFiles)];
    }
  }

  /** The indices of the items that still carry the hidden class, in document order: what
      `querySelectorAll('.older-apk-hidden')` returns. */
  function HiddenPositions(hidden: seq<bool>): (pos: seq<nat>)
    ensures forall k :: 0 <= k < |pos| ==> pos[k] < |hidden| && hidden[pos[k]]
    ensures forall i :: 0 <= i < |hidden| && hidden[i] ==> i in pos
    ensures forall k, l :: 0 <= k < l < |pos| ==> pos[k] < pos[l]
  {
    if hidden == [] then []
    else
      var rest := HiddenPositions(hidden[..|hidden| - 1]);
      if hidden[|hidden| - 1] then rest + [|hidden| - 1] else rest
  }

  /** The items from `visible` on are hidden, the ones before shown. */
  ghost predicate HiddenFrom(hidden: seq<bool>, visible: nat) {
    forall i :: 0 <= i < |hidden| ==> (hidden[i] <==> i >= visible)
  }

  /** When the visible items form a prefix, the hidden ones are the rest, in order. */
  lemma {:induction false} HiddenPositionsOfSuffix(hidden: seq<bool>, visible: nat)
    requires visible <= |hidden| && HiddenFrom(hidden, visible)
    ensures HiddenPositions(hidden) == seq(|hidden| - visible, k requires 0 <= k < |hidden| - visible => visible + k)
  {
    if |hidden| > visible {
      var front := hidden[..|hidden| - 1];
      assert HiddenFrom(front, visible);
      HiddenPositionsOfSuffix(front, visible);
    } else {
      assert forall i :: 0 <= i < |hidden| ==> !hidden[i];
      if hidden != [] {
        HiddenNone(hidden);
      }
    }
  }

  lemma {:induction false} HiddenNone(hidden: seq<bool>)
    requires forall i :: 0 <= i < |hidden| ==> !hidden[i]
    ensures HiddenPositions(hidden) == []
  {
    if hidden != [] {
      HiddenNone(hidden[..|hidden| - 1]);
    }
  }

  /** The load-more button after a click: hidden, or labelled with the next batch size. */
  datatype LoadMoreButton = ButtonHidden | ButtonLabel(count: nat)

  /** The older builds of one release card, each with or without the hidden class. */
  class OlderApkList {
    var hidden: array<bool>

    /** The items `olderApks.forEach` writes: the first three visible. */
    constructor (count: nat)
      ensures fresh(hidden) && hidden.Length == count
      ensures HiddenFrom(hidden[..], Min(count, InitialShow))
    {
      hidden := new bool[count](i => i >= InitialShow);
    }

    /** `loadMoreOlderApks`: un-hides the first `min(increment, hidden)` hidden items in
        document order and reports the button's new state. */
    method LoadMore(increment: nat) returns (button: LoadMoreButton)
      modifies hidden
      ensures var pos := HiddenPositions(old(hidden[..]));
        var toShow := Min(increment, |pos|);
        && (forall i :: 0 <= i < hidden.Length ==> (hidden[i] <==> old(hidden[i]) && i !in pos[..toShow]))
        && button == (if |pos| - toShow > 0 then ButtonLabel(Min(|pos| - toShow, increment)) else ButtonHidden)
    {
      var pos := HiddenPositions(hidden[..]);
      if |pos| == 0 {
        button := ButtonHidden;
        return;
      }
      var toShow := Min(increment, |pos|);
      Unhide(hidden, pos[..toShow]);
      var remaining := |pos| - toShow;
      if remaining > 0 {
        button := ButtonLabel(Min(remaining, increment));
      } else {
        button := ButtonHidden;
      }
    }
  }

  /** Removes the hidden class from the items at `batch`, one at a time. */
  method Unhide(hidden: array<bool>, batch: seq<nat>)
    requires forall k :: 0 <= k < |batch| ==> batch[k] < hidden.Length
    modifies hidden
    ensures forall i :: 0 <= i < hidden.Length ==> (hidden[i] <==> old(hidden[i]) && i !in batch)
  {
    for k := 0 to |batch|
      invariant forall i :: 0 <= i < hidden.Length ==> (hidden[i] <==> old(hidden[i]) && i !in batch[..k])
    {
      assert batch[..k + 1] == batch[..k] + [batch[k]];
      hidden[batch[k]] := false;
    }
    assert batch[..|batch|] == batch;
  }

  /** From a prefix of `visible` shown items, one click shows `increment` more, or all. */
  lemma LoadMoreFromPrefix(before: seq<bool>, after: seq<bool>, visible: nat, increment: nat)
    requires visible <= |before| == |after| && HiddenFrom(before, visible)
    requires var pos := HiddenPositions(before);
      forall i :: 0 <= i < |after| ==> (after[i] <==> before[i] && i !in pos[..Min(increment, |pos|)])
    ensures HiddenFrom(after, Min(|before|, visible + increment))
    ensures |HiddenPositions(before)| == |before| - visible
  {
    HiddenPositionsOfSuffix(before, visible);
    var pos := HiddenPositions(before);
    var shown := Min(increment, |pos|);
    forall i | 0 <= i < |after| ensures after[i] <==> i >= Min(|before|, visible + increment) {
      if visible <= i < visible + shown {
        assert pos[..shown][i - visible] == i;
      }
      if i in pos[..shown] {
        var k :| 0 <= k < shown && pos[..shown][k] == i;
      }
    }
  }

  // ---------------------------------------------------------------------------------------
  // The active-build card

  const EstimatedBuildSeconds := 25 * 60

  /** `a % b` in JavaScript: the remainder takes the sign of `a`. */
  function JsRem(a: int, b: int): (r: int)
    requires b > 0
    ensures -b < r < b
    ensures a >= 0 ==> r >= 0
    ensures a <= 0 ==> r <= 0
  {
    if a >= 0 then a % b else -((-a) % b)
  }

  /** `Math.floor((Date.now() - new Date(startedAt)) / 1000)`; a null start is the epoch. */
  function ElapsedSeconds(nowMs: int, startedAt: Option<int>): (e: int)
    ensures var start := if startedAt.Some? then startedAt.value else 0;
      1000 * e <= nowMs - start < 1000 * (e + 1)
  {
    var start := if startedAt.Some? then startedAt.value else 0;
    (nowMs - start) / 1000
  }

  /** `Math.min(95, Math.floor(elapsed / 1500 * 100))`, computed in whole numbers. */
  function Progress(elapsed: int): (p: int)
    ensures p <= 95
    ensures p < 95 ==> EstimatedBuildSeconds * p <= 100 * elapsed < EstimatedBuildSeconds * (p + 1)
  {
    Min(95, (100 * elapsed) / EstimatedBuildSeconds)
  }

  /** The bar stops at 95%, which it reaches 95% of the way through the estimate; it is
      never negative for a build that has started. */
  lemma ProgressBounds(elapsed: int)
    ensures Progress(elapsed) == 95 <==> elapsed >= 1425
    ensures elapsed >= 0 ==> 0 <= Progress(elapsed)
    ensures forall later :: later >= elapsed ==> Progress(later) >= Progress(elapsed)
  {
    forall later | later >= elapsed ensures Progress(later) >= Progress(elapsed) {
      assert 100 * later >= 100 * elapsed;
    }
  }

  /** `Math.floor(elapsed / 60)` and `elapsed % 60`. */
  function ElapsedMinSec(elapsed: int): (ms: (int, int)) {
    (elapsed / 60, JsRem(elapsed, 60))
  }

  /** For a build that started in the past the display adds up: whole minutes and
      0 to 59 seconds. */
  lemma ElapsedSplits(elapsed: int)
    requires elapsed >= 0
    ensures var (m, s) := ElapsedMinSec(elapsed); elapsed == 60 * m + s && 0 <= s < 60 && m >= 0
  {
  }

  /** With the local clock behind the build's start, the floored minutes and the truncated
      seconds do not add up: one second in the future shows as `-1m -1s`. */
  lemma ElapsedClockSkew()
    ensures ElapsedMinSec(-1) == (-1, -1)
    ensures var (m, s) := ElapsedMinSec(-1); 60 * m + s != -1
  {
  }

  /** The figures an active-build card shows. */
  datatype BuildCardView = BuildCardView(branch: string, progress: int, minutes: int, seconds: int)

  function ActiveBuildCard(build: BuildRun, nowMs: int): (v: BuildCardView)
    ensures v.branch == build.branch
    ensures v.progress == Progress(ElapsedSeconds(nowMs, build.startedAt))
    ensures (v.minutes, v.seconds) == ElapsedMinSec(ElapsedSeconds(nowMs, build.startedAt))
  {
    var elapsed := ElapsedSeconds(nowMs, build.startedAt);
    var (m, s) := ElapsedMinSec(elapsed);
    BuildCardView(build.branch, Progress(elapsed), m, s)
  }

  // ---------------------------------------------------------------------------------------
  // Page state

  const PollIntervalMs := 30000

  datatype Filters = Filters(branch: string, sort: string)

  const DefaultFilters := Filters(AllBranches, DateDesc)

  /** What `loadActiveBuilds` does with the panel. */
  datatype ActivePanel = HidePanel | ShowBuilds(builds: seq<BuildRun>) | KeepPanel

  class Main {
    var allReleases: seq<Release>
    var filters: Filters
    /** The id of the last timer set, kept after it fires, as the page keeps it. */
    var pollTimer: Option<nat>
    /** The timers set and neither fired nor cleared. */
    var pendingTimers: set<nat>
    var nextTimerId: nat

    /** Only the last timer set can be pending, and ids are positive, as browsers make them. */
    ghost predicate Valid()
      reads this
    {
      && (pollTimer.None? ==> pendingTimers == {})
      && (pollTimer.Some? ==> pendingTimers <= {pollTimer.value} && 1 <= pollTimer.value < nextTimerId)
      && nextTimerId >= 1
    }

    constructor ()
      ensures Valid()
      ensures allReleases == [] && filters == DefaultFilters
      ensures pollTimer == None && pendingTimers == {}
    {
      allReleases := [];
      filters := DefaultFilters;
      pollTimer := None;
      pendingTimers := {};
      nextTimerId := 1;
    }

    /** `getFilteredReleases`: a filtered copy, sorted in place by the selected mode. */
    method GetFilteredReleases() returns (r: seq<Release>)
      ensures r == Sorting.SortBy(FilterByBranch(allReleases, filters.branch), SortComparator(filters.sort))
    {
      var filtered := FilterByBranch(allReleases, filters.branch);
      var a := new Release[|filtered|](i requires 0 <= i < |filtered| => filtered[i]);
      assert a[..] == filtered;
      Sorting.SortInPlace(a, SortComparator(filters.sort));
      r := a[..];
    }

    /** `loadReleases`: a successful, non-empty answer replaces the list, fills the branch
        drop-down and draws the cards; anything else leaves the list and draws nothing. */
    method LoadReleases(fetch: Fetch<ReleasesBody>) returns (refreshed: bool, branches: seq<string>, cards: seq<Option<CardFiles>>)
      modifies this`allReleases
      ensures allReleases == LoadedReleases(old(allReleases), fetch)
      ensures refreshed <==> fetch.Fetched? && fetch.data.Success() && fetch.data.releases != []
      ensures !refreshed ==> branches == [] && cards == []
      ensures refreshed ==> branches == UniqueBranches(allReleases)
      ensures refreshed ==> var shown := Sorting.SortBy(FilterByBranch(allReleases, filters.branch), SortComparator(filters.sort));
        |cards| == |shown| && forall k :: 0 <= k < |cards| ==> cards[k] == SplitFiles(shown[k].apkFiles)
    {
      refreshed := fetch.Fetched? && fetch.data.Success() && fetch.data.releases != [];
      allReleases := LoadedReleases(allReleases, fetch);
      if refreshed {
        branches := UniqueBranches(allReleases);
        cards := RenderReleases();
      } else {
        branches := [];
        cards := [];
      }
    }

    /** `renderReleases`: the files part of one card per filtered release, in order. */
    method RenderReleases() returns (cards: seq<Option<CardFiles>>)
      ensures var shown := Sorting.SortBy(FilterByBranch(allReleases, filters.branch), SortComparator(filters.sort));
        |cards| == |shown| && forall k :: 0 <= k < |cards| ==> cards[k] == SplitFiles(shown[k].apkFiles)
    {
      var shown := GetFilteredReleases();
      cards := SplitEach(shown);
    }

    /** The branch drop-down's change listener: a new branch, and the cards drawn again. */
    method ChangeBranch(branch: string) returns (cards: seq<Option<CardFiles>>)
      modifies this`filters
      ensures filters == old(filters).(branch := branch)
      ensures var shown := Sorting.SortBy(FilterByBranch(allReleases, branch), SortComparator(filters.sort));
        |cards| == |shown| && forall k :: 0 <= k < |cards| ==> cards[k] == SplitFiles(shown[k].apkFiles)
    {
      filters := filters.(branch := branch);
      cards := RenderReleases();
    }

    /** The sort drop-down's change listener: a new mode, and the cards drawn again. */
    method ChangeSort(mode: string) returns (cards: seq<Option<CardFiles>>)
      modifies this`filters
      ensures filters == old(filters).(sort := mode)
      ensures var shown := Sorting.SortBy(FilterByBranch(allReleases, filters.branch), SortComparator(mode));
        |cards| == |shown| && forall k :: 0 <= k < |cards| ==> cards[k] == SplitFiles(shown[k].apkFiles)
    {
      filters := filters.(sort := mode);
      cards := RenderReleases();
    }

    /** The clear-filters listener: every release, newest first. */
    method ClearFilters() returns (cards: seq<Option<CardFiles>>)
      modifies this`filters
      ensures filters == DefaultFilters
      ensures var shown := Sorting.SortBy(allReleases, CompareDateDesc);
        |cards| == |shown| && forall k :: 0 <= k < |cards| ==> cards[k] == SplitFiles(shown[k].apkFiles)
    {
      filters := DefaultFilters;
      cards := RenderReleases();
    }

    /** `scheduleNextPoll`: clears the previous timer, then sets a new one. */
    method ScheduleNextPoll()
      requires Valid()
      modifies this`pollTimer, this`pendingTimers, this`nextTimerId
      ensures Valid()
      ensures pollTimer == Some(old(nextTimerId)) && pendingTimers == {old(nextTimerId)}
      ensures nextTimerId == old(nextTimerId) + 1
    {
      if pollTimer.Some? {
        pendingTimers := pendingTimers - {pollTimer.value};
      }
      pollTimer := Some(nextTimerId);
      pendingTimers := pendingTimers + {nextTimerId};
      nextTimerId := nextTimerId + 1;
    }

    /** `loadActiveBuilds`: the panel shows the builds when there are any, and only then is
        the next poll scheduled. */
    method LoadActiveBuilds(fetch: Fetch<BuildsBody>) returns (panel: ActivePanel)
      requires Valid()
      modifies this`pollTimer, this`pendingTimers, this`nextTimerId
      ensures Valid()
      ensures var polls := fetch.Fetched? && fetch.data.success && fetch.data.builds != [];
        && (polls ==>
              pollTimer == Some(old(nextTimerId)) && pendingTimers == {old(nextTimerId)}
              && nextTimerId == old(nextTimerId) + 1 && panel == ShowBuilds(fetch.data.builds))
        && (!polls ==>
              pollTimer == old(pollTimer) && pendingTimers == old(pendingTimers)
              && nextTimerId == old(nextTimerId))
        && (fetch.FetchFailed? ==> panel == KeepPanel)
        && (fetch.Fetched? && !polls ==> panel == HidePanel)
    {
      match fetch
      case FetchFailed(_) =>
        panel := KeepPanel;
      case Fetched(data) =>
        if !data.success || |data.builds| == 0 {
          panel := HidePanel;
        } else {
          panel := ShowBuilds(data.builds);
          ScheduleNextPoll();
        }
    }

    /** A pending poll timer fires: it is no longer pending, and it reloads the active builds
        (the panel and the next poll) and the releases (the branch list and the cards). */
    method FirePoll(id: nat, builds: Fetch<BuildsBody>, releases: Fetch<ReleasesBody>)
      returns (panel: ActivePanel, refreshed: bool, branches: seq<string>, cards: seq<Option<CardFiles>>)
      requires Valid() && id in pendingTimers
      modifies this`pollTimer, this`pendingTimers, this`nextTimerId, this`allReleases
      ensures Valid()
      ensures var polls := builds.Fetched? && builds.data.success && builds.data.builds != [];
        && (polls ==>
              pollTimer == Some(old(nextTimerId)) && pendingTimers == {old(nextTimerId)}
              && nextTimerId == old(nextTimerId) + 1 && panel == ShowBuilds(builds.data.builds))
        && (!polls ==>
              pollTimer == old(pollTimer) && pendingTimers == {} && nextTimerId == old(nextTimerId))
        && (builds.FetchFailed? ==> panel == KeepPanel)
        && (builds.Fetched? && !polls ==> panel == HidePanel)
      ensures allReleases == LoadedReleases(old(allReleases), releases)
      ensures refreshed <==> releases.Fetched? && releases.data.Success() && releases.data.releases != []
      ensures !refreshed ==> branches == [] && cards == []
      ensures refreshed ==> branches == UniqueBranches(allReleases)
      ensures refreshed ==> var shown := Sorting.SortBy(FilterByBranch(allReleases, filters.branch), SortComparator(filters.sort));
        |cards| == |shown| && forall k :: 0 <= k < |cards| ==> cards[k] == SplitFiles(shown[k].apkFiles)
    {
      pendingTimers := pendingTimers - {id};
      assert pendingTimers == {};
      panel := LoadActiveBuilds(builds);
      refreshed, branches, cards := LoadReleases(releases);
    }
  }

  /** At most one poll is ever pending. */
  lemma AtMostOnePoll(m: Main)
    requires m.Valid()
    ensures |m.pendingTimers| <= 1
  {
    if m.pollTimer.Some? {
      var only := {m.pollTimer.value};
      assert m.pendingTimers == {} || m.pendingTimers == only;
    }
  }
}

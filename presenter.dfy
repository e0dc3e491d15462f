/** Presenter logic the main page and the archive page share: the branch filter and the
    list of branches offered in the filter drop-down. */
module Presenter {
  import opened Common
  import opened Strings
  import opened Releases
  import Sorting

  /** The filter value that selects every branch. */
  const AllBranches := "all"

  function BranchIs(branch: string): Release -> bool {
    (r: Release) => r.branch == branch
  }

  /** The branch step of `getFilteredReleases`: the whole list for `'all'`, else
      `filter(r => r.branch === branch)`. */
  function FilterByBranch(releases: seq<Release>, branch: string): (r: seq<Release>)
    ensures branch == AllBranches ==> r == releases
    ensures branch != AllBranches ==> forall x :: x in r <==> x in releases && x.branch == branch
    ensures multiset(r) <= multiset(releases)
  {
    if branch == AllBranches then releases else Sorting.Filter(BranchIs(branch), releases)
  }

  /** The branch filter keeps the list's relative order. */
  lemma FilterByBranchAppend(a: seq<Release>, b: seq<Release>, branch: string)
    ensures FilterByBranch(a + b, branch) == FilterByBranch(a, branch) + FilterByBranch(b, branch)
  {
    if branch != AllBranches {
      Sorting.FilterAppend(BranchIs(branch), a, b);
    }
  }

  predicate Distinct(s: seq<string>) {
    forall i, j :: 0 <= i < j < |s| ==> s[i] != s[j]
  }

  /** `[...new Set(s)]`: each value once, in order of first occurrence. */
  function Dedup(s: seq<string>): (r: seq<string>)
    ensures forall x :: x in r <==> x in s
    ensures Distinct(r)
  {
    if s == [] then []
    else
      var r := Dedup(s[..|s| - 1]);
      assert forall x :: x in s <==> x in s[..|s| - 1] || x == s[|s| - 1];
      if s[|s| - 1] in r then r else r + [s[|s| - 1]]
  }

  function Branches(releases: seq<Release>): (bs: seq<string>)
    ensures forall b :: b in bs <==> exists r :: r in releases && r.branch == b
  {
    var bs := seq(|releases|, i requires 0 <= i < |releases| => releases[i].branch);
    assert forall r :: r in releases ==> r.branch in bs by {
      forall r | r in releases ensures r.branch in bs {
        var i :| 0 <= i < |releases| && releases[i] == r;
        assert bs[i] == r.branch;
      }
    }
    bs
  }

  /** `[...new Set(allReleases.map(r => r.branch))].sort()`. */
  function UniqueBranches(releases: seq<Release>): seq<string> {
    Sorting.SortBy(Dedup(Branches(releases)), CompareStrings)
  }

  lemma CompareStringsTotalPreorder()
    ensures Sorting.TotalPreorder(CompareStrings)
  {
    forall x, y ensures CompareStrings(x, y) <= 0 || CompareStrings(y, x) <= 0 {
      CompareStringsIsOrder(x, y, x);
    }
    forall x, y, z | CompareStrings(x, y) <= 0 && CompareStrings(y, z) <= 0
      ensures CompareStrings(x, z) <= 0
    {
      CompareStringsIsOrder(x, y, z);
    }
  }

  /** A sequence is distinct exactly when no value occurs in it twice. */
  lemma {:induction false} DistinctCounts(s: seq<string>)
    ensures Distinct(s) <==> forall x :: multiset(s)[x] <= 1
  {
    if s == [] {
    } else {
      var t := s[..|s| - 1];
      var y := s[|s| - 1];
      assert s == t + [y];
      DistinctCounts(t);
      if Distinct(s) {
        assert Distinct(t);
        assert forall i :: 0 <= i < |t| ==> t[i] != y;
      } else {
        var i, j :| 0 <= i < j < |s| && s[i] == s[j];
        if j < |s| - 1 {
          assert t[i] == t[j];
          assert !Distinct(t);
          var x :| multiset(t)[x] > 1;
          assert multiset(s) == multiset(t) + multiset{y};
          assert multiset(s)[x] > 1;
        } else {
          assert s[i] in t;
          assert multiset(s)[y] == multiset(t)[y] + 1;
        }
      }
    }
  }

  /** The branch options: every branch of some release, each once, in strictly increasing
      code-unit order. */
  lemma UniqueBranchesOrdered(releases: seq<Release>)
    ensures forall b :: b in UniqueBranches(releases) <==> exists r :: r in releases && r.branch == b
    ensures forall i, j :: 0 <= i < j < |UniqueBranches(releases)| ==>
      LexLess(UniqueBranches(releases)[i], UniqueBranches(releases)[j])
  {
    var d := Dedup(Branches(releases));
    var u := UniqueBranches(releases);
    assert forall b :: b in u <==> b in multiset(u);
    assert forall b :: b in d <==> b in multiset(d);
    CompareStringsTotalPreorder();
    Sorting.SortBySorted(d, CompareStrings);
    DistinctCounts(d);
    DistinctCounts(u);
    forall i, j | 0 <= i < j < |u| ensures LexLess(u[i], u[j]) {
      CompareStringsIsOrder(u[i], u[j], u[j]);
    }
  }

  /** `loadReleases`: the list is replaced only by a successful, non-empty answer; a failed
      request, a failure body or an empty list leave it as it was. */
  function LoadedReleases(current: seq<Release>, fetch: Fetch<ReleasesBody>): (r: seq<Release>)
    ensures r != current ==> fetch.Fetched? && fetch.data.Success() && fetch.data.releases == r && r != []
    ensures fetch.Fetched? && fetch.data.Success() && fetch.data.releases != [] ==> r == fetch.data.releases
  {
    if fetch.Fetched? && fetch.data.ReleasesOk? && fetch.data.releases != [] then fetch.data.releases
    else current
  }
}

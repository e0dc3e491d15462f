/** Release reshaping shared by both HTTP servers: upstream releases whose tag starts with
    the configured prefix become frontend releases that list only their `.apk` assets. */
module Releases {
  import opened Common
  import opened Strings
  import Sorting

  /** An entry of an upstream release's `assets` array. */
  datatype UpstreamAsset = UpstreamAsset(
    name: string, size: int, browserDownloadUrl: string, downloadCount: int)

  /** An entry of the upstream releases list; `publishedAt` is in milliseconds. */
  datatype UpstreamRelease = UpstreamRelease(
    id: int, name: Option<string>, tagName: string, body: Option<string>,
    publishedAt: int, authorLogin: string, assets: seq<UpstreamAsset>)

  /** A downloadable APK as the frontend receives it. The servers never send `uploadedAt`;
      the pages nonetheless read it, so it is here as an absent-or-present value. */
  datatype ApkFile = ApkFile(
    name: string, size: int, downloadUrl: string, downloadCount: int, uploadedAt: Option<int>)

  /** A release as the frontend receives it. */
  datatype Release = Release(
    id: int, name: string, tag: string, branch: string, description: string,
    publishedAt: int, author: string, apkFiles: seq<ApkFile>)

  /** The `app` part of the configuration, echoed in the releases response. */
  datatype AppConfig = AppConfig(name: string, description: string, tagPattern: string)

  /** The JSON body of `GET /api/releases`. */
  datatype ReleasesBody =
    | ReleasesOk(app: AppConfig, releases: seq<Release>)
    | ReleasesFailed(error: string, message: string)
  {
    predicate Success() { ReleasesOk? }
  }

  const ApkSuffix := ".apk"
  const NoDescription := "No description available"
  const ReleasesFetchError := "Failed to fetch releases"

  /** `value || fallback` for a string that may be null: null and "" are both falsy. */
  function OrElse(value: Option<string>, fallback: string): (r: string)
    ensures value.Some? && value.value != "" ==> r == value.value
    ensures value.None? || value.value == "" ==> r == fallback
  {
    if value.Some? && value.value != "" then value.value else fallback
  }

  predicate IsApkAsset(a: UpstreamAsset) {
    EndsWith(a.name, ApkSuffix)
  }

  function ToApkFile(a: UpstreamAsset): ApkFile {
    ApkFile(a.name, a.size, a.browserDownloadUrl, a.downloadCount, None)
  }

  /** `assets.filter(a => a.name.endsWith('.apk')).map(...)`. */
  function ApkFilesOf(assets: seq<UpstreamAsset>): (files: seq<ApkFile>)
    ensures forall f :: f in files ==> EndsWith(f.name, ApkSuffix) && f.uploadedAt.None?
    ensures forall a :: a in assets && IsApkAsset(a) ==> ToApkFile(a) in files
    ensures forall f :: f in files ==> exists a :: a in assets && IsApkAsset(a) && f == ToApkFile(a)
  {
    var kept := Sorting.Filter(IsApkAsset, assets);
    var files := seq(|kept|, i requires 0 <= i < |kept| => ToApkFile(kept[i]));
    assert forall a :: a in kept ==> ToApkFile(a) in files by {
      forall a | a in kept ensures ToApkFile(a) in files {
        var i :| 0 <= i < |kept| && kept[i] == a;
        assert files[i] == ToApkFile(a);
      }
    }
    assert forall f :: f in files ==> EndsWith(f.name, ApkSuffix) && f.uploadedAt.None? by {
      forall f | f in files ensures EndsWith(f.name, ApkSuffix) && f.uploadedAt.None? {
        var i :| 0 <= i < |files| && files[i] == f;
        assert kept[i] in kept;
      }
    }
    files
  }

  /** The APK list of concatenated asset lists is the concatenation of their APK lists:
      assets keep their upstream order. */
  lemma ApkFilesOfAppend(a: seq<UpstreamAsset>, b: seq<UpstreamAsset>)
    ensures ApkFilesOf(a + b) == ApkFilesOf(a) + ApkFilesOf(b)
  {
    var ka, kb := Sorting.Filter(IsApkAsset, a), Sorting.Filter(IsApkAsset, b);
    Sorting.FilterAppend(IsApkAsset, a, b);
    ApkFilesShape(a + b);
    ApkFilesShape(a);
    ApkFilesShape(b);
    ToApkFilesAppend(ka, kb);
  }

  /** Converts each of the given APK assets, in order. */
  function ToApkFiles(kept: seq<UpstreamAsset>): seq<ApkFile> {
    seq(|kept|, i requires 0 <= i < |kept| => ToApkFile(kept[i]))
  }

  /** The APK list is the APK assets, each converted, in their order. */
  lemma ApkFilesShape(assets: seq<UpstreamAsset>)
    ensures ApkFilesOf(assets) == ToApkFiles(Sorting.Filter(IsApkAsset, assets))
  {
  }

  lemma ToApkFilesAppend(ka: seq<UpstreamAsset>, kb: seq<UpstreamAsset>)
    ensures ToApkFiles(ka + kb) == ToApkFiles(ka) + ToApkFiles(kb)
  {
    var whole, fa, fb := ToApkFiles(ka + kb), ToApkFiles(ka), ToApkFiles(kb);
    forall i | 0 <= i < |whole| ensures whole[i] == (fa + fb)[i] {
      if i < |ka| {
        assert (ka + kb)[i] == ka[i];
      } else {
        assert (ka + kb)[i] == kb[i - |ka|];
      }
    }
  }

  /** Reshapes one upstream release whose tag carries the configured prefix. */
  function FormatRelease(u: UpstreamRelease, tagPattern: string): (r: Release)
    ensures r.id == u.id && r.tag == u.tagName && r.publishedAt == u.publishedAt
    ensures r.author == u.authorLogin && r.apkFiles == ApkFilesOf(u.assets)
    ensures r.name == OrElse(u.name, u.tagName) && r.description == OrElse(u.body, NoDescription)
    ensures StartsWith(u.tagName, tagPattern) ==> r.branch == u.tagName[|tagPattern|..]
  {
    assert StartsWith(u.tagName, tagPattern) ==> ReplaceFirst(u.tagName, tagPattern, "") == u.tagName[|tagPattern|..] by {
      if StartsWith(u.tagName, tagPattern) {
        ReplaceFirstOfPrefix(u.tagName, tagPattern);
      }
    }
    Release(
      u.id, OrElse(u.name, u.tagName), u.tagName, ReplaceFirst(u.tagName, tagPattern, ""),
      OrElse(u.body, NoDescription), u.publishedAt, u.authorLogin, ApkFilesOf(u.assets))
  }

  /** The release filter: `release.tag_name.startsWith(tagPattern)`. */
  function TagFilter(tagPattern: string): UpstreamRelease -> bool {
    (u: UpstreamRelease) => StartsWith(u.tagName, tagPattern)
  }

  /** `releases.filter(tagged).map(FormatRelease)`. */
  function FormatReleases(upstream: seq<UpstreamRelease>, tagPattern: string): (out: seq<Release>)
    ensures |out| <= |upstream|
  {
    var kept := Sorting.Filter(TagFilter(tagPattern), upstream);
    seq(|kept|, i requires 0 <= i < |kept| => FormatRelease(kept[i], tagPattern))
  }

  /** Every output release carries the prefix, and its branch is its tag without it. */
  lemma FormatReleasesTagged(upstream: seq<UpstreamRelease>, tagPattern: string)
    ensures forall r :: r in FormatReleases(upstream, tagPattern) ==>
      StartsWith(r.tag, tagPattern) && r.branch == r.tag[|tagPattern|..]
  {
    var kept := Sorting.Filter(TagFilter(tagPattern), upstream);
    forall r | r in FormatReleases(upstream, tagPattern)
      ensures StartsWith(r.tag, tagPattern) && r.branch == r.tag[|tagPattern|..]
    {
      var i :| 0 <= i < |kept| && r == FormatRelease(kept[i], tagPattern);
      assert kept[i] in kept;
    }
  }

  /** Every upstream release whose tag carries the prefix is reshaped into the output. */
  lemma FormatReleasesKeeps(upstream: seq<UpstreamRelease>, tagPattern: string, u: UpstreamRelease)
    requires u in upstream && StartsWith(u.tagName, tagPattern)
    ensures FormatRelease(u, tagPattern) in FormatReleases(upstream, tagPattern)
  {
    var kept := Sorting.Filter(TagFilter(tagPattern), upstream);
    assert TagFilter(tagPattern)(u);
    assert u in kept;
    var i :| 0 <= i < |kept| && kept[i] == u;
    assert FormatReleases(upstream, tagPattern)[i] == FormatRelease(u, tagPattern);
  }

  /** A single upstream release is reshaped when tagged and dropped otherwise. */
  lemma FormatReleasesSingle(u: UpstreamRelease, tagPattern: string)
    ensures FormatReleases([u], tagPattern)
      == if StartsWith(u.tagName, tagPattern) then [FormatRelease(u, tagPattern)] else []
  {
    assert [u][1..] == [];
  }

  /** Upstream order is kept: reshaping distributes over concatenation. Together with
      `FormatReleasesSingle` this pins the output down completely. */
  lemma FormatReleasesAppend(a: seq<UpstreamRelease>, b: seq<UpstreamRelease>, tagPattern: string)
    ensures FormatReleases(a + b, tagPattern)
      == FormatReleases(a, tagPattern) + FormatReleases(b, tagPattern)
  {
    var keep := TagFilter(tagPattern);
    var ka, kb := Sorting.Filter(keep, a), Sorting.Filter(keep, b);
    Sorting.FilterAppend(keep, a, b);
    FormatReleasesShape(a + b, tagPattern);
    FormatReleasesShape(a, tagPattern);
    FormatReleasesShape(b, tagPattern);
    var whole, fa, fb := FormatReleases(a + b, tagPattern), FormatReleases(a, tagPattern), FormatReleases(b, tagPattern);
    forall i | 0 <= i < |whole| ensures whole[i] == (fa + fb)[i] {
      if i < |ka| {
        assert (ka + kb)[i] == ka[i];
      } else {
        assert (ka + kb)[i] == kb[i - |ka|];
      }
    }
  }

  /** The output is the kept releases, each reshaped, in their order. */
  lemma FormatReleasesShape(upstream: seq<UpstreamRelease>, tagPattern: string)
    ensures |FormatReleases(upstream, tagPattern)| == |Sorting.Filter(TagFilter(tagPattern), upstream)|
    ensures forall i :: 0 <= i < |FormatReleases(upstream, tagPattern)| ==>
      FormatReleases(upstream, tagPattern)[i] == FormatRelease(Sorting.Filter(TagFilter(tagPattern), upstream)[i], tagPattern)
  {
  }

  /** The `/api/releases` handler, identical in both servers: 200 with the reshaped
      releases, or 500 with a fixed error string and the failure's message. */
  function ReleasesEndpoint(fetch: Fetch<seq<UpstreamRelease>>, app: AppConfig): (r: Response<ReleasesBody>)
    ensures r.status == StatusOk <==> fetch.Fetched?
    ensures r.status == StatusServerError <==> fetch.FetchFailed?
    ensures r.body.Success() <==> r.status == StatusOk
    ensures fetch.Fetched? ==> r.body.app == app && r.body.releases == FormatReleases(fetch.data, app.tagPattern)
    ensures fetch.FetchFailed? ==> r.body.error == ReleasesFetchError && r.body.message == fetch.message
  {
    match fetch
    case Fetched(upstream) => Response(StatusOk, ReleasesOk(app, FormatReleases(upstream, app.tagPattern)))
    case FetchFailed(message) => Response(StatusServerError, ReleasesFailed(ReleasesFetchError, message))
  }
}

# APK-DEPLOYER in Dafny

APK-DEPLOYER is a small web app that lists Android builds published as GitHub releases. It has
two parts.

- **Backend.** An Express backend, in two copies: `api/index.js` for serverless hosting and
  `server.js` for a local server. It reads releases and Actions workflow runs from GitHub and
  reshapes them into the JSON the pages use:
  - `GET /api/releases`: releases whose tag starts with the configured tag pattern, each with
    its `.apk` assets;
  - `GET /api/builds/active`: runs of the "Build and Release APK" workflow that are in
    progress;
  - `GET /api/builds/recent`: the last such runs, with their durations.
- **Pages.** Two browser pages consume that JSON:
  - `public/script.js` (the main page) filters releases by branch and sorts them by one of
    four modes. Each card shows the latest APK, then the older ones with progressive "Load
    More" disclosure. The page polls the active builds every 30 seconds while one is running.
  - `public/archive-script.js` (the archive) orders releases with `main` first, newest first.
    It sorts each release's APKs by the `YYYYMMDD-HHMMSS` timestamp in their file names and
    pages them three at a time. It keeps one current page per release card.

The model keeps each part's own form:

- **Pure reshaping.** The backend's reshaping and the pages' filter, sort, split and
  pagination logic are functions.
  - GitHub's answers, and a failed request, come in as `Fetch` values.
  - Endpoints return a `Response` with a status and a body.
  - A rendered card is a value describing what the HTML shows.
- **Mutable page state.** The state the pages mutate is held in classes:
  - `allReleases`, the current filters and the per-release `apkPages` map;
  - the poll timer;
  - the hidden flags of the older-APK list, an `array<bool>`.

  Each event handler is a method with a `modifies` clause. Its `ensures` gives the new state
  and the cards it renders.
- **Sorting.** JavaScript's `Array.prototype.sort` is modelled two ways:
  - `Sorting.SortBy`, a stable insertion sort over a comparator that returns an `int`;
  - `Sorting.SortInPlace`, the in-place array version, proved equal to `SortBy`.

  Both pages' comparators are proved to be total preorders. So the stable result is the one
  any conforming engine produces.

A Dafny `char` is a Unicode scalar value, while a JavaScript string is a sequence of UTF-16
code units. The two agree on text in the Basic Multilingual Plane, which is what the model
assumes of tags, names and titles. The default `sort()` order is lexicographic order of
characters (`Strings.CompareStrings`), and the model uses the same order in place of
`localeCompare`, which is a locale collation (see "## Left out"). Dates are integers in
milliseconds. The current time is a parameter (`nowMs`).

A few behaviours of the code that are easy to get wrong, each with the lines it comes from:

- **Main page.** The main page shows `apkFiles[0]` as "latest" in the order the API returned
  it (`public/script.js:216`). Only the archive sorts APKs by the timestamp in the file name.
  The archive also does not fall back to an upload or publish time for that sort: a name
  without a timestamp sorts as the string `"0"` (`public/archive-script.js:177-186`).
- **Archive release order.** After the `main`-first rule, the archive orders releases by
  `publishedAt` (`public/archive-script.js:147`), not by their newest APK's timestamp.
- **Branch of a build.**
  - Only `api/index.js` recovers the branch of a build from the run title, through the pattern
    `APK Build from branch:\s*(.+)`. `server.js` reports `head_branch` unchanged.
  - A title ending in the marker and blank space yields the empty branch, not `head_branch`
    (`ApiIndex.TrailingSpaceGivesEmptyBranch`).
- **Build duration.** The duration is `Math.round` of the elapsed seconds, not a truncation.

## Model

| member | source | states |
|---|---|---|
| Strings.IndexOfFrom | api/index.js:116 | the result is the first position at or after `from` where the pattern occurs, and None exactly when it occurs nowhere there |
| Strings.ReplaceFirstOfPrefix | api/index.js:61 | `replace(pattern, '')` applied to a tag that starts with the pattern removes exactly that prefix |
| Strings.TrimStart | api/index.js:118 | the result is a suffix of the input; everything dropped is whitespace; the result does not start with whitespace |
| Strings.TrimEnd | api/index.js:118 | the result is a prefix of the input; everything dropped is whitespace; the result does not end with whitespace |
| Strings.CompareStringsIsOrder | public/script.js:173-175 | the string comparison is 0 only on equal strings, is antisymmetric and is transitive |
| Strings.LexTransitive | public/script.js:139 | code-unit order is transitive |
| Strings.LexTrichotomy | public/script.js:139 | of two strings exactly one is smaller, or they are equal |
| Sorting.Filter | api/index.js:46-48 | the result keeps exactly the elements the predicate accepts, as a sub-multiset of the input |
| Sorting.FilterAppend | api/index.js:46-48 | filtering distributes over concatenation, so the filter keeps the input order |
| Sorting.SortBy | public/archive-script.js:141-148 | sorting keeps the length and the multiset of elements |
| Sorting.SortBySorted | public/archive-script.js:141-148 | for a total-preorder comparator the result is sorted |
| Sorting.SortByStable | public/script.js:166-179 | elements the comparator ties keep their relative order |
| Sorting.SortByOfSorted | public/script.js:166-179 | an already sorted list is returned unchanged |
| Sorting.SortByIdempotent | public/archive-script.js:179-185 | sorting a second time changes nothing, so re-sorting a card's APKs on each render is harmless |
| Sorting.SortByAllEqual | public/script.js:176-177 | a comparator that always answers 0 leaves the list as it is |
| Sorting.InsertSorted | public/archive-script.js:141-148 | inserting into a sorted list gives a sorted list |
| Sorting.InsertTies | public/script.js:166-179 | insertion keeps the order of tied elements |
| Sorting.InsertPosition | public/script.js:166-179 | insertion puts the new element just before the first element it does not compare greater than |
| Sorting.SortInPlace | public/archive-script.js:179-185 | the in-place sort of an array leaves exactly `SortBy` of its old contents |
| Sorting.InsertFrom | public/archive-script.js:179-185 | one insertion step leaves the prefix alone and turns the suffix into the insertion of its first element |
| Releases.OrElse | api/index.js:59 | `value \|\| fallback`: the value when it is present and non-empty, else the fallback |
| Releases.ApkFilesOf | api/index.js:53-70 | every file ends in `.apk`; every `.apk` asset appears, reshaped; nothing else appears; no upload time is sent |
| Releases.ApkFilesOfAppend | api/index.js:53-55 | the asset filter keeps the upstream order |
| Releases.FormatRelease | api/index.js:57-71 | id, tag, date, author and files are copied; name falls back to the tag; description falls back to the placeholder text; branch is the tag without the pattern |
| Releases.FormatReleases | api/index.js:46-72 | the formatted list is no longer than the upstream list |
| Releases.FormatReleasesTagged | api/index.js:46-61 | every formatted release has a tag starting with the pattern and its branch is the rest of the tag |
| Releases.FormatReleasesKeeps | api/index.js:46-48 | every upstream release whose tag starts with the pattern appears, formatted, in the answer |
| Releases.FormatReleasesSingle | api/index.js:46-72 | a single release gives its formatting or nothing, by the tag test |
| Releases.FormatReleasesAppend | api/index.js:46-72 | filtering and formatting keep the upstream order |
| Releases.ReleasesEndpoint | api/index.js:37-87 | status 200 with `success` and the formatted releases when GitHub answers; status 500 with the fixed error and GitHub's message otherwise; `server.js:49-99` is the same handler, line for line |
| Builds.DurationSeconds | api/index.js:161-163 | present exactly when both times are; otherwise the elapsed milliseconds rounded to the nearest second |
| Builds.BuildRuns | api/index.js:111-112 | the kept runs are exactly those of the "Build and Release APK" workflow |
| Builds.BuildRunsAppend | api/index.js:111-112 | the workflow filter keeps the run order |
| Builds.ActiveBuilds | api/index.js:111-130 | one active build per kept run, in order, each the run's fields under the branch the caller chooses |
| Builds.RecentBuilds | api/index.js:158-184 | one recent build per kept run, in order, with its duration |
| Builds.ActiveBuildsExactly | api/index.js:111-130 | every active build comes from a build-workflow run and every such run yields one; the list distributes over concatenation |
| Builds.RecentBuildsExactly | api/index.js:158-184 | every recent build comes from a build-workflow run and every such run yields one; the list distributes over concatenation |
| ApiIndex.WhitespaceEnd | api/index.js:116 | the `\s*` step: the end of the longest whitespace run from a position |
| ApiIndex.LineEnd | api/index.js:116 | the `(.+)` step: the end of the longest run of non-line-terminators |
| ApiIndex.BacktrackCapture | api/index.js:116 | backtracking from the end of greedy `\s*` captures from the last position at or before it that is not a line terminator, every later position up to there being one, and runs to the end of the line; no capture means only line terminators were there |
| ApiIndex.RunBranch | api/index.js:115-119 | the branch is the trimmed capture when the title matches, else `head_branch` |
| ApiIndex.TitleNamesBranch | api/index.js:116-118 | after the first marker and its blank space, the branch is the rest of that line with trailing blanks trimmed |
| ApiIndex.TitleWithoutMarker | api/index.js:115-119 | a missing title, or one without the marker, keeps `head_branch` |
| ApiIndex.WorkflowTitleExample | api/index.js:114 | the title format in the comment yields the branch named in it |
| ApiIndex.MarkerAndSpaceGivesEmptyBranch | api/index.js:116-118 | a title ending in the marker and one blank character captures that character and trims it to the empty branch |
| ApiIndex.MarkerAndLineBreakHasNoBranch | api/index.js:116-119 | a title ending in the marker and a line break does not match |
| ApiIndex.TrailingSpaceGivesEmptyBranch | api/index.js:115-119 | the build of a run titled "APK Build from branch: " is reported on the empty branch |
| ApiIndex.LineBreakKeepsHeadBranch | api/index.js:115-119 | the build of a run whose title ends in the marker and a line break keeps `head_branch` |
| ApiIndex.ActiveBuildsEndpoint | api/index.js:98-143 | always status 200; `success` exactly when GitHub answered; no builds on failure; otherwise the active builds with the title branch |
| ApiIndex.RecentBuildsEndpoint | api/index.js:146-197 | always status 200; `success` exactly when GitHub answered; no builds on failure; otherwise the recent builds with the title branch |
| Server.ActiveBuildsEndpoint | server.js:110-146 | always status 200; `success` exactly when GitHub answered; otherwise the active builds on `head_branch` |
| Server.RecentBuildsEndpoint | server.js:149-193 | always status 200; `success` exactly when GitHub answered; otherwise the recent builds on `head_branch` |
| Server.ServersDifferOnlyInBranch | server.js:123-133 | both backends return the same responses except for `branch`; they agree on a run's branch exactly when its title yields no branch or `head_branch` |
| Server.BranchesDisagreeExample | server.js:127 | a run on `main` titled for `feature/login` is reported on different branches by the two backends |
| Presenter.FilterByBranch | public/script.js:160-163 | `all` keeps the whole list; any other value keeps exactly the releases of that branch |
| Presenter.FilterByBranchAppend | public/archive-script.js:136-138 | the branch filter keeps the release order |
| Presenter.Dedup | public/script.js:139 | `new Set`: the same members, each once |
| Presenter.Branches | public/script.js:139 | the listed branches are exactly those of the releases |
| Presenter.DistinctCounts | public/archive-script.js:114 | a list has no repeats exactly when every member occurs at most once |
| Presenter.CompareStringsTotalPreorder | public/script.js:139 | the default string order is a total preorder |
| Presenter.UniqueBranchesOrdered | public/archive-script.js:114 | the branch drop-down lists every branch of the releases, each once, in strictly increasing order |
| Presenter.LoadedReleases | public/script.js:107-126 | the releases are replaced only by a successful, non-empty answer; failures and empty answers keep the old list |
| ArchivePage.Timestamp | public/archive-script.js:180-183 | a name ending in `YYYYMMDD-HHMMSS.apk` gives those 14 digits, which rebuild the name's tail; any other name gives `"0"` |
| ArchivePage.TimestampExample | public/archive-script.js:5 | a name in the documented format yields its timestamp; a name without one yields `"0"` |
| ArchivePage.CompareApksTotalPreorder | public/archive-script.js:179-185 | the APK comparator is a total preorder |
| ArchivePage.DigitOrderIsNumeric | public/archive-script.js:184 | for digit strings of equal length, string order is numeric order |
| ArchivePage.ZeroBeforeStamp | public/archive-script.js:182 | the fallback `"0"` sorts below every timestamp, so unstamped APKs go last |
| ArchivePage.ApkFilesNewestFirst | public/archive-script.js:177-186 | the sorted APKs are a permutation with the stamped ones first, newest first |
| ArchivePage.StampOf | public/archive-script.js:181 | a name made of any prefix, date, `-`, time and `.apk` has date and time as its timestamp |
| ArchivePage.ExampleStampsOrdered | public/archive-script.js:184 | for one concrete pair of timestamps, 2 January 09:00:00 compares after 1 January 12:00:00 as strings |
| ArchivePage.LatestApkExample | public/archive-script.js:177-186 | two APKs a day apart are listed newer first |
| ArchivePage.ExampleApksCompare | public/archive-script.js:184 | the comparator puts the newer of two stamped APKs first |
| ArchivePage.CompareReleasesTotalPreorder | public/archive-script.js:141-148 | the release comparator is a total preorder |
| ArchivePage.ReleasesMainFirst | public/archive-script.js:140-148 | the sorted releases are a permutation with all `main` releases first and each group newest first |
| ArchivePage.ReleaseId | public/archive-script.js:175 | same length; ASCII letters and digits are kept and every other code unit becomes `_` |
| ArchivePage.ReleaseIdIdempotent | public/archive-script.js:175 | an id is its own id |
| ArchivePage.ReleaseIdCollision | public/archive-script.js:175 | two different tags can share one id, and so one page counter |
| ArchivePage.InitPage | public/archive-script.js:188-191 | a missing or falsy page becomes 1; a set page and every other entry are kept |
| ArchivePage.InitPageStable | public/archive-script.js:188-191 | initialising twice changes nothing, and a page set by navigation survives initialisation |
| ArchivePage.TotalPages | public/archive-script.js:230 | `ceil(n / 3)`: zero exactly for no files, else the least page count holding all files |
| ArchivePage.PageItems | public/archive-script.js:233-236 | at most three files, the ones from `(page - 1) * 3` on, and none past the end |
| ArchivePage.PagesCoverFiles | public/archive-script.js:230-236 | file `i` appears as item `i % 3` of page `i / 3 + 1`, which is a real page |
| ArchivePage.PageButtons | public/archive-script.js:271-299 | no bar for one page; otherwise Previous, one button per page with only the current one active, and Next, with Previous and Next disabled at the ends |
| ArchivePage.FormatApkDate | public/archive-script.js:7-46 | the file-name timestamp wins; the upload time is used only without one; "Unknown Date" exactly when neither exists |
| ArchivePage.HeaderDate | public/archive-script.js:193-218 | the header uses the first (newest) APK's date when it has one, else the release's publish date |
| ArchivePage.SortApkFiles | public/archive-script.js:177-186 | the card's APKs are the input sorted newest first |
| ArchivePage.LayOutPage | public/archive-script.js:227-299 | the shown files, their dates, the range shown, the "Latest" mark (only on page 1) and the pagination bar all match the current page |
| ArchivePage.Archive.constructor | public/archive-script.js:48-55 | no releases, the `all` filter and no remembered pages |
| ArchivePage.Archive.LoadReleases | public/archive-script.js:72-109 | the release list becomes `LoadedReleases` of the old list and the answer; a refresh happens exactly when the answer succeeds with releases, and then returns the unique branches for the filter and one card per shown release, new cards on page 1; otherwise pages are untouched and nothing is rendered |
| ArchivePage.Archive.GetFilteredReleases | public/archive-script.js:132-151 | the shown releases are the branch filter sorted `main` first, newest first |
| ArchivePage.Archive.CreateReleaseCard | public/archive-script.js:172-319 | the card has the release's id, its APKs sorted newest first and the header date; it has a page layout exactly when the release has APKs, and that layout shows the release's current page; the page map gains a page 1 entry only when none was set |
| ArchivePage.Archive.RenderReleases | public/archive-script.js:154-169 | one card per shown release in order, each with its id, sorted APKs, header date and the layout of its current page in the final page map; existing pages are kept and new entries are page 1 for a rendered card |
| ArchivePage.Archive.CreateReleaseCards | public/archive-script.js:165-168 | the render loop builds one card per given release, each showing its page in the final page map; old pages are kept and new entries are page 1 |
| ArchivePage.CardsShowPages | public/archive-script.js:229-235 | every rendered card with a layout shows the page its release has in the page map |
| ArchivePage.FreshPages | public/archive-script.js:154-169 | after a render from an empty page map, the map holds exactly the rendered ids, each on page 1 |
| ArchivePage.Archive.GoToApkPage | public/archive-script.js:322-330 | the chosen release moves to the page asked for and its card shows that page; other pages stay; every shown release is re-rendered from the new page map |
| ArchivePage.Archive.ChangeBranchFilter | public/archive-script.js:341-345 | the filter is set; the page map is reset and then holds exactly the rendered ids, each on page 1; cards are those of the new filter's releases in archive order, each showing page 1 |
| ArchivePage.Archive.ClearFilters | public/archive-script.js:347-352 | the filter returns to `all`; the page map holds exactly the rendered ids, each on page 1; cards list all releases in archive order, each showing page 1 |
| MainPage.SortComparatorTotalPreorder | public/script.js:166-179 | every sort mode's comparator, and the unknown-mode one, is a total preorder |
| MainPage.SortModeOrders | public/script.js:166-179 | the result is a permutation ordered newest first, oldest first, by name ascending or by name descending, per mode; an unknown mode keeps the order |
| MainPage.SortModeStable | public/script.js:166-179 | releases the chosen mode ties keep their relative order |
| MainPage.SplitFiles | public/script.js:214-277 | no files means no list; otherwise the first file is "latest" and the rest are older; the first three older ones are visible; "Load More" appears beyond three and offers min(remaining, 5) |
| MainPage.SplitEach | public/script.js:196-199 | one card split per shown release, in order |
| MainPage.HiddenPositions | public/script.js:366 | the hidden items' indices in document order: each hidden, none missed, strictly increasing |
| MainPage.HiddenPositionsOfSuffix | public/script.js:252-255 | when all items from some index on are hidden, those are exactly the hidden positions |
| MainPage.OlderApkList.constructor | public/script.js:252-255 | a list of `count` older APKs with all but the first three hidden |
| MainPage.OlderApkList.LoadMore | public/script.js:363-386 | the first min(increment, hidden) hidden items are shown and nothing else changes; the button then offers min(remaining, increment) or disappears |
| MainPage.Unhide | public/script.js:375-377 | exactly the items in the batch lose the hidden class |
| MainPage.LoadMoreFromPrefix | public/script.js:363-386 | from the initial layout, each click moves the visible boundary forward by the increment, up to the end |
| MainPage.JsRem | public/script.js:58 | JavaScript `%`: smaller in magnitude than the divisor, with the sign of the dividend |
| MainPage.ElapsedSeconds | public/script.js:55-56 | `Math.floor` of the elapsed milliseconds over 1000 |
| MainPage.Progress | public/script.js:61-62 | at most 95; below that, the floor of the elapsed share of 25 minutes in percent |
| MainPage.ProgressBounds | public/script.js:61-62 | the progress is capped at 95 from 1425 seconds on, never negative for a started build, and never decreases over time |
| MainPage.ElapsedSplits | public/script.js:57-58 | for a past start, minutes and seconds add up to the elapsed time with seconds in 0..59 |
| MainPage.ElapsedClockSkew | public/script.js:56-58 | a start one second in the future displays -1 minutes and -1 seconds, which do not add up to -1 second |
| MainPage.ActiveBuildCard | public/script.js:54-85 | the card shows the build's branch, its progress and its elapsed minutes and seconds |
| MainPage.Main.constructor | public/script.js:5-13 | no releases, filters `all` and `date-desc`, no poll scheduled |
| MainPage.Main.GetFilteredReleases | public/script.js:157-182 | the shown releases are the branch filter sorted by the selected mode |
| MainPage.Main.LoadReleases | public/script.js:97-134 | the release list becomes `LoadedReleases` of the old list and the answer; a refresh happens exactly when the answer succeeds with releases, and then returns the unique branches for the filter and the latest/older split of each filtered, sorted release; otherwise nothing is rendered |
| MainPage.Main.RenderReleases | public/script.js:185-200 | one card per shown release, each the split of its APKs |
| MainPage.Main.ChangeBranch | public/script.js:329-332 | only the branch filter changes, and the cards follow it |
| MainPage.Main.ChangeSort | public/script.js:334-337 | only the sort mode changes, and the cards follow it |
| MainPage.Main.ClearFilters | public/script.js:339-344 | the filters reset to `all` and `date-desc`; the cards list all releases newest first |
| MainPage.Main.ScheduleNextPoll | public/script.js:88-94 | any pending poll is cancelled and exactly one new one is pending |
| MainPage.Main.LoadActiveBuilds | public/script.js:30-51 | a successful non-empty answer shows the builds and schedules a poll; an empty or failed answer hides the panel; a network error leaves everything alone |
| MainPage.Main.FirePoll | public/script.js:90-93 | the fired timer is no longer pending; the builds panel is shown with the builds and exactly one new poll is pending when builds are running, hidden when the answer has none, left alone on a failed request; the release list is reloaded, and exactly on a successful answer with releases the branch list is refilled with the unique branches and the filtered, sorted cards are re-rendered |
| MainPage.AtMostOnePoll | public/script.js:88-94 | at most one poll is ever pending |
| Description.ReplaceNewlinesClean | public/script.js:313 | the result has no line feed, and a text without one is unchanged |
| Description.ReplaceNewlinesAppend | public/script.js:313 | the line-break pass of a concatenation is the concatenation of the passes |
| Description.LineFeedBecomesBreak | public/script.js:313 | each line feed becomes `<br>` and the text on both sides is kept |
| Description.CloseFrom | public/script.js:314-315 | a close that is found lies at or after the opening and is an occurrence of the delimiter |
| Description.CloseFromFirst | public/script.js:314-315 | the lazy `(.*?)` closes at the first delimiter, with no line terminator before it |
| Description.CloseFromNone | public/script.js:314-315 | when no close is found, every later delimiter lies beyond a line terminator |
| Description.ReplacePairsSkip | public/script.js:314-315 | text without the delimiter's first character is copied, and the scan resumes after it |
| Description.ReplacePairsFront | public/script.js:314-315 | a delimited pair at the front becomes `open x close`, and the scan resumes after it |
| Description.ReplacePairsAt | public/script.js:314-315 | in `plain + D + x + D + rest` the plain text is kept, the pair becomes `open x close` and `rest` is scanned on its own |
| Description.ReplacePairsNoDelimiter | public/script.js:314-315 | a text without the delimiter is unchanged |
| Description.ReplacePairsNoNewline | public/script.js:313-315 | the replacements never introduce a line feed |
| Description.FormattedHasNoNewline | public/script.js:306-316 | a formatted description has no line feed |
| Description.PlaceholderCases | public/script.js:307-309 | a missing, empty or placeholder description formats to the italic placeholder |
| Description.BoldText | public/script.js:314 | `**x**` around plain text becomes `<strong>x</strong>` |
| Description.BoldPair | public/script.js:314 | the bold step alone turns `**x**` into `<strong>x</strong>` |
| Description.NoDoubleStar | public/script.js:314 | the bold step leaves a single-star pair alone |
| Description.ItalicText | public/script.js:315 | `*x*` around plain text becomes `<em>x</em>` |

## Left out

- HTTP, Express routing, axios, headers, the token and environment configuration are not
  modelled: GitHub's answer is a `Fetch` value, either the data or a failure with its message.
- The `GET /api/config` endpoint and both pages' `loadConfig` are not modelled: they only copy
  configuration into the page.
- The query URLs and parameters of the GitHub requests are left out: the endpoints receive
  GitHub's answer, not the request.
- Exceptions other than a failed request are left out. These include a missing `author` or
  `actor`, or a missing `assets` list, any of which would make a handler answer through its
  error branch. A missing `head_branch` is modelled as a string.
- HTML string building, DOM updates, `scrollIntoView` and the loading and error elements are
  not modelled. Cards are values describing what they show. The error message shown after a
  failed load is not modelled.
- `MainPage.OlderApkList`: each card keeps its own list. The source finds a card's list and
  Load More button by an id built from the tag (public/script.js:218, 364-365), so two tags
  with the same id (`ArchivePage.ReleaseIdCollision`) make every Load More act on the first
  card's list.
- `toggleOlderApksSection` is left out: it only flips a section's CSS display and an icon's
  rotation.
- Date parsing, `toLocaleString`/`toLocaleDateString`, the time zone and the
  `YYYYMMDD-HHMMSS` to local-time conversion are not modelled. Dates are integers, and a
  displayed date is the `DateSource` it is computed from.
- APK sizes in megabytes (`toFixed(2)`) and download counts are not modelled: they are copied
  or formatted only.
- Real timers and the clock are not modelled: a poll is a pending timer id, and the current
  time is a parameter.
- The archive sorts `release.apkFiles` in place, and that array is shared with `allReleases`.
  The model sorts a copy. The two agree because sorting twice changes nothing
  (`Sorting.SortByIdempotent`).
- ArchivePage.Archive.GoToApkPage requires `page >= 1`: its only callers are the pagination
  buttons, which pass real page numbers.
- ArchivePage.FormatApkDate: the upload-time fallback is modelled, but both backends never send
  `uploadedAt`, so on real data it is unreachable (`Releases.ApkFilesOf` states this).
- The `totalCount` argument of `loadMoreOlderApks` is unused by the source and is not modelled.
- MainPage.JsRem is stated by its bounds and sign rather than fully: its body is the
  truncated remainder, and the contract gives only what the elapsed-time display needs.
- MainPage.Progress uses exact integer arithmetic in place of the floating-point division
  before `Math.floor`; floating-point rounding is not modelled.
- MainPage.ElapsedSeconds treats a missing start time as time 0, as `new Date(null)` does; the
  `NaN` that `new Date(undefined)` would give is not modelled.
- `formatDescription` is not called anywhere in the page script. It is modelled as written.
- ArchivePage.ReleaseId maps each `char` to one character. A character outside the Basic
  Multilingual Plane is one `char` here and gives one `_`; JavaScript sees two UTF-16 code
  units and gives two.
- MainPage.SortModeOrders orders names by `Strings.CompareStrings`, lexicographic order of
  characters. The source uses `localeCompare`, a locale collation: it puts `"alpha"` before
  `"Beta"`, which code order does not, and it may call two different strings equal. Locale
  collation tables are outside the model.
- Strings.CompareStringsIsOrder is proved of code order only. Whether a given locale's
  `localeCompare` is a total order is not modelled.
- When a poll fires, `loadActiveBuilds` and `loadReleases` run concurrently. The model runs them
  one after the other (`MainPage.Main.FirePoll`). They touch separate state, so the final state
  is the same in either order.

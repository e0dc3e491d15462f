/** The archive page (`public/archive-script.js`): every release with all its APKs, newest
    first, three APKs per page, with the current page remembered per release. */
module ArchivePage {
  import opened Common
  import opened Strings
  import opened Releases
  import opened Presenter
  import Sorting

  const ApksPerPage := 3
  const MainBranch := "main"

  // ---------------------------------------------------------------------------------------
  // The `YYYYMMDD-HHMMSS` token at the end of an APK file name

  /** The name ends in eight digits, a dash, six digits and `.apk`: what
      `/(\d{8})-(\d{6})\.apk$/` matches. */
  predicate HasStamp(name: string) {
    && |name| >= 19
    && AllDigits(name[|name| - 19..|name| - 11])
    && name[|name| - 11] == '-'
    && AllDigits(name[|name| - 10..|name| - 4])
    && name[|name| - 4..] == ".apk"
  }

  /** `getTimestamp`: the date and time digits run together, or `'0'` when the name carries
      no token. */
  function Timestamp(name: string): (t: string)
    ensures HasStamp(name) ==>
      |t| == 14 && AllDigits(t) && name == name[..|name| - 19] + t[..8] + "-" + t[8..] + ".apk"
    ensures !HasStamp(name) ==> t == "0"
  {
    if HasStamp(name) then
      var t := name[|name| - 19..|name| - 11] + name[|name| - 10..|name| - 4];
      assert t[..8] == name[|name| - 19..|name| - 11] && t[8..] == name[|name| - 10..|name| - 4];
      assert name == name[..|name| - 19] + name[|name| - 19..|name| - 11] + [name[|name| - 11]]
        + name[|name| - 10..|name| - 4] + name[|name| - 4..];
      t
    else "0"
  }

  lemma TimestampExample(stamped: string, plain: string)
    requires stamped == "SafeTransit-main-abc1234-20240102-090000.apk"
    requires plain == "SafeTransit-main.apk"
    ensures Timestamp(stamped) == "20240102090000"
    ensures Timestamp(plain) == "0"
  {
    var n := |stamped|;
    assert stamped[n - 19..n - 11] == "20240102";
    assert stamped[n - 10..n - 4] == "090000";
    assert stamped[n - 4..] == ".apk";
    assert HasStamp(stamped);
    assert plain[|plain| - 11] != '-';
  }

  /** The APK comparator: `getTimestamp(b.name).localeCompare(getTimestamp(a.name))`. */
  function CompareApks(a: ApkFile, b: ApkFile): int {
    CompareStrings(Timestamp(b.name), Timestamp(a.name))
  }

  lemma CompareApksTotalPreorder()
    ensures Sorting.TotalPreorder(CompareApks)
  {
    forall x, y ensures CompareApks(x, y) <= 0 || CompareApks(y, x) <= 0 {
      CompareStringsIsOrder(Timestamp(x.name), Timestamp(y.name), Timestamp(x.name));
    }
    forall x, y, z | CompareApks(x, y) <= 0 && CompareApks(y, z) <= 0
      ensures CompareApks(x, z) <= 0
    {
      CompareStringsIsOrder(Timestamp(z.name), Timestamp(y.name), Timestamp(x.name));
    }
  }

  function Pow10(n: nat): (p: nat)
    ensures p >= 1
  {
    if n == 0 then 1 else 10 * Pow10(n - 1)
  }

  /** A digit `d` in a place worth `p`, followed by less than `p`, stays below `10 * p`. */
  lemma DigitPlace(d: int, p: int, rest: int)
    requires 0 <= d <= 9 && 0 <= rest < p
    ensures 0 <= d * p + rest < 10 * p
  {
    assert d * p + rest < (d + 1) * p by {
      assert (d + 1) * p == d * p + p;
    }
    assert (d + 1) * p <= 10 * p by {
      assert 10 * p == (d + 1) * p + (9 - d) * p;
    }
  }

  /** The number a digit string spells. */
  function DigitsValue(s: string): (v: nat)
    requires AllDigits(s)
    ensures v < Pow10(|s|)
  {
    if s == [] then 0
    else
      var d := (s[0] as int) - ('0' as int);
      var rest := DigitsValue(s[1..]);
      DigitPlace(d, Pow10(|s| - 1), rest);
      d * Pow10(|s| - 1) + rest
  }

  /** Under a common place value `p`, the smaller leading digit gives the smaller number. */
  lemma LeadingDigitDecides(da: int, db: int, p: int, ra: int, rb: int)
    requires 0 <= da < db && 0 <= ra < p && 0 <= rb
    ensures da * p + ra < db * p + rb
  {
    var gap := db - da;
    assert gap * p >= p by {
      assert gap * p == p + (gap - 1) * p;
    }
    assert db * p == da * p + gap * p;
  }

  /** On digit strings of one length, code-unit order is numeric order. */
  lemma {:induction false} DigitOrderIsNumeric(a: string, b: string)
    requires |a| == |b| && AllDigits(a) && AllDigits(b)
    ensures LexLess(a, b) <==> DigitsValue(a) < DigitsValue(b)
  {
    if a != [] {
      var p := Pow10(|a| - 1);
      var da, db := (a[0] as int) - ('0' as int), (b[0] as int) - ('0' as int);
      var ra, rb := DigitsValue(a[1..]), DigitsValue(b[1..]);
      assert DigitsValue(a) == da * p + ra && DigitsValue(b) == db * p + rb;
      if da == db {
        assert a[0] == b[0];
        DigitOrderIsNumeric(a[1..], b[1..]);
      } else if da < db {
        assert LexLess(a, b);
        LeadingDigitDecides(da, db, p, ra, rb);
      } else {
        assert !LexLess(a, b);
        LeadingDigitDecides(db, da, p, rb, ra);
      }
    }
  }

  /** The token `'0'` of an unstamped name sorts below every stamp. */
  lemma ZeroBeforeStamp(t: string)
    requires |t| == 14 && AllDigits(t)
    ensures LexLess("0", t)
  {
    if t[0] == '0' {
      assert LexLess("0"[1..], t[1..]);
    }
  }

  /** After `apkFiles.sort(...)`: the files are the same files, stamped files come before
      unstamped ones, and stamps run from the latest moment down. */
  lemma {:induction false} ApkFilesNewestFirst(files: seq<ApkFile>)
    ensures multiset(Sorting.SortBy(files, CompareApks)) == multiset(files)
    ensures var r := Sorting.SortBy(files, CompareApks);
      forall i, j :: 0 <= i < j < |r| && HasStamp(r[j].name) ==> HasStamp(r[i].name)
    ensures var r := Sorting.SortBy(files, CompareApks);
      forall i, j :: 0 <= i < j < |r| && HasStamp(r[i].name) && HasStamp(r[j].name) ==>
        DigitsValue(Timestamp(r[i].name)) >= DigitsValue(Timestamp(r[j].name))
  {
    var r := Sorting.SortBy(files, CompareApks);
    CompareApksTotalPreorder();
    Sorting.SortBySorted(files, CompareApks);
    forall i, j | 0 <= i < j < |r| ensures !LexLess(Timestamp(r[i].name), Timestamp(r[j].name)) {
      var ti, tj := Timestamp(r[i].name), Timestamp(r[j].name);
      assert CompareApks(r[i], r[j]) <= 0;
      LexAsymmetric(ti, tj);
      LexIrreflexive(ti);
    }
    forall i, j | 0 <= i < j < |r| && HasStamp(r[j].name) ensures HasStamp(r[i].name) {
      ZeroBeforeStamp(Timestamp(r[j].name));
    }
    forall i, j | 0 <= i < j < |r| && HasStamp(r[i].name) && HasStamp(r[j].name)
      ensures DigitsValue(Timestamp(r[i].name)) >= DigitsValue(Timestamp(r[j].name))
    {
      DigitOrderIsNumeric(Timestamp(r[i].name), Timestamp(r[j].name));
    }
  }

  /** A name built as prefix, date, dash, time and `.apk` has the date and time as token. */
  lemma StampOf(name: string, prefix: string, date: string, time: string)
    requires |date| == 8 && |time| == 6 && AllDigits(date) && AllDigits(time)
    requires name == prefix + date + "-" + time + ".apk"
    ensures Timestamp(name) == date + time
  {
    var n := |name|;
    assert name[n - 19..n - 11] == date;
    assert name[n - 11] == '-';
    assert name[n - 10..n - 4] == time;
    assert name[n - 4..] == ".apk";
  }

  lemma ExampleStampsOrdered()
    ensures CompareStrings("20240102" + "090000", "20240101" + "120000") == 1
  {
    var older, newer := "20240101" + "120000", "20240102" + "090000";
    LexLessAt(older, newer, 7);
    LexAsymmetric(older, newer);
  }

  /** Of an APK built on 1 January at noon and one built on 2 January at nine, the second
      is listed first. */
  lemma LatestApkExample(older: ApkFile, newer: ApkFile)
    requires older.name == "app-" + "20240101" + "-" + "120000" + ".apk"
    requires newer.name == "app-" + "20240102" + "-" + "090000" + ".apk"
    ensures Sorting.SortBy([older, newer], CompareApks) == [newer, older]
  {
    ExampleApksCompare(older, newer);
    assert [older, newer][1..] == [newer] && [newer][1..] == [];
    assert Sorting.SortBy([newer], CompareApks) == [newer];
    assert Sorting.Insert(older, [newer], CompareApks) == [newer, older];
  }

  lemma ExampleApksCompare(older: ApkFile, newer: ApkFile)
    requires older.name == "app-" + "20240101" + "-" + "120000" + ".apk"
    requires newer.name == "app-" + "20240102" + "-" + "090000" + ".apk"
    ensures CompareApks(older, newer) == 1
  {
    StampOf(older.name, "app-", "20240101", "120000");
    StampOf(newer.name, "app-", "20240102", "090000");
    ExampleStampsOrdered();
  }

  // ---------------------------------------------------------------------------------------
  // The release order

  /** `main` first, then by publication time, newest first. */
  function CompareReleases(a: Release, b: Release): int {
    if a.branch == MainBranch && b.branch != MainBranch then -1
    else if a.branch != MainBranch && b.branch == MainBranch then 1
    else b.publishedAt - a.publishedAt
  }

  lemma CompareReleasesTotalPreorder()
    ensures Sorting.TotalPreorder(CompareReleases)
  {
  }

  /** The sorted releases are the filtered ones; every `main` release precedes every other,
      and within each group the newest comes first. */
  lemma {:induction false} ReleasesMainFirst(releases: seq<Release>)
    ensures multiset(Sorting.SortBy(releases, CompareReleases)) == multiset(releases)
    ensures var r := Sorting.SortBy(releases, CompareReleases);
      forall i, j :: 0 <= i < j < |r| && r[j].branch == MainBranch ==> r[i].branch == MainBranch
    ensures var r := Sorting.SortBy(releases, CompareReleases);
      forall i, j :: 0 <= i < j < |r| && (r[i].branch == MainBranch <==> r[j].branch == MainBranch) ==>
        r[i].publishedAt >= r[j].publishedAt
  {
    CompareReleasesTotalPreorder();
    Sorting.SortBySorted(releases, CompareReleases);
  }

  // ---------------------------------------------------------------------------------------
  // Release ids and per-release page state

  predicate IsIdChar(c: char) { IsAsciiAlnum(c) || c == '_' }

  /** `tag.replace(/[^a-zA-Z0-9]/g, '_')`. */
  function ReleaseId(tag: string): (id: string)
    ensures |id| == |tag|
    ensures forall i :: 0 <= i < |id| ==> IsIdChar(id[i])
    ensures forall i :: 0 <= i < |id| ==> IsAsciiAlnum(tag[i]) ==> id[i] == tag[i]
    ensures forall i :: 0 <= i < |id| ==> !IsAsciiAlnum(tag[i]) ==> id[i] == '_'
  {
    seq(|tag|, i requires 0 <= i < |tag| => if IsAsciiAlnum(tag[i]) then tag[i] else '_')
  }

  /** An id is its own id, so ids can be recomputed from ids. */
  lemma ReleaseIdIdempotent(tag: string)
    ensures ReleaseId(ReleaseId(tag)) == ReleaseId(tag)
  {
  }

  /** Tags that differ only in punctuation share an id, and so share page state. */
  lemma ReleaseIdCollision()
    ensures ReleaseId("apk-v1.2") == ReleaseId("apk_v1-2") == "apk_v1_2"
  {
  }

  /** `if (!apkPages[releaseId]) apkPages[releaseId] = 1`: an absent or zero entry becomes 1. */
  function InitPage(pages: map<string, int>, id: string): (r: map<string, int>)
    ensures id in r && (r[id] == 1 <==> id !in pages || pages[id] == 0 || pages[id] == 1)
    ensures forall k :: k in r <==> k in pages || k == id
    ensures forall k :: k in pages && k != id ==> r[k] == pages[k]
    ensures id in pages && pages[id] != 0 ==> r[id] == pages[id]
  {
    if id !in pages || pages[id] == 0 then pages[id := 1] else pages
  }

  /** Rendering again keeps the page state: initialisation does nothing the second time, and
      nothing after a page was chosen. */
  lemma InitPageStable(pages: map<string, int>, id: string, page: int)
    requires page >= 1
    ensures InitPage(InitPage(pages, id), id) == InitPage(pages, id)
    ensures InitPage(pages[id := page], id) == pages[id := page]
  {
  }

  // ---------------------------------------------------------------------------------------
  // Pagination

  /** `Math.ceil(n / 3)`. */
  function TotalPages(n: nat): (t: nat)
    ensures n == 0 <==> t == 0
    ensures t > 0 ==> ApksPerPage * (t - 1) < n <= ApksPerPage * t
  {
    (n + ApksPerPage - 1) / ApksPerPage
  }

  function PageStart(page: int): int {
    (page - 1) * ApksPerPage
  }

  /** `apkFiles.slice(start, min(start + 3, n))` with `start = (page - 1) * 3`. */
  function PageItems(files: seq<ApkFile>, page: int): (shown: seq<ApkFile>)
    requires page >= 1
    ensures |shown| <= ApksPerPage
    ensures |shown| == if PageStart(page) >= |files| then 0 else Min(ApksPerPage, |files| - PageStart(page))
    ensures forall k :: 0 <= k < |shown| ==> shown[k] == files[PageStart(page) + k]
  {
    var start := PageStart(page);
    var end := Min(start + ApksPerPage, |files|);
    if start >= end then [] else files[start..end]
  }

  function Min(a: int, b: int): int { if a <= b then a else b }

  /** The pages cover the list: file `i` is item `i % 3` of page `i / 3 + 1`, which is one
      of the `TotalPages` pages. */
  lemma PagesCoverFiles(files: seq<ApkFile>, i: nat)
    requires i < |files|
    ensures 1 <= i / ApksPerPage + 1 <= TotalPages(|files|)
    ensures i % ApksPerPage < |PageItems(files, i / ApksPerPage + 1)|
    ensures PageItems(files, i / ApksPerPage + 1)[i % ApksPerPage] == files[i]
  {
    assert PageStart(i / ApksPerPage + 1) == i - i % ApksPerPage;
  }

  /** One button of the pagination bar: a target page, or none when it is disabled or is the
      current page. */
  datatype PageButton =
    | Previous(target: Option<int>)
    | PageNumber(number: int, active: bool)
    | Next(target: Option<int>)

  /** The pagination bar: none for a single page; otherwise Previous, one button per page
      with the current one active, and Next, the outer two disabled at the ends. */
  predicate PaginationBar(buttons: seq<PageButton>, currentPage: int, totalPages: int) {
    if totalPages <= 1 then buttons == []
    else
      && |buttons| == totalPages + 2
      && buttons[0] == Previous(if currentPage > 1 then Some(currentPage - 1) else None)
      && buttons[totalPages + 1] == Next(if currentPage < totalPages then Some(currentPage + 1) else None)
      && forall k :: 1 <= k <= totalPages ==> buttons[k] == PageNumber(k, k == currentPage)
  }

  /** The loop that writes the pagination bar. */
  method PageButtons(currentPage: int, totalPages: int) returns (buttons: seq<PageButton>)
    ensures PaginationBar(buttons, currentPage, totalPages)
    ensures totalPages > 1 && currentPage >= 1 ==>
      (buttons[0].target.None? <==> currentPage == 1)
      && (buttons[|buttons| - 1].target.None? <==> currentPage >= totalPages)
    ensures forall k :: 0 <= k < |buttons| && buttons[k].PageNumber? && buttons[k].active ==>
      k == currentPage && buttons[k].number == currentPage
  {
    buttons := [];
    if totalPages > 1 {
      buttons := [Previous(if currentPage > 1 then Some(currentPage - 1) else None)];
      for i := 1 to totalPages + 1
        invariant |buttons| == i
        invariant buttons[0] == Previous(if currentPage > 1 then Some(currentPage - 1) else None)
        invariant forall k :: 1 <= k < i ==> buttons[k] == PageNumber(k, k == currentPage)
      {
        buttons := buttons + [PageNumber(i, i == currentPage)];
      }
      buttons := buttons + [Next(if currentPage < totalPages then Some(currentPage + 1) else None)];
    }
  }

  // ---------------------------------------------------------------------------------------
  // Dates shown on the card

  /** Where a displayed date comes from. */
  datatype DateSource = FromStamp(stamp: string) | FromUpload(at: int) | FromPublished(at: int) | UnknownDate

  /** `formatApkDate`: the file name's token, else the upload time, else `'Unknown Date'`. */
  function FormatApkDate(name: string, uploadedAt: Option<int>): (d: DateSource)
    ensures d.FromStamp? <==> HasStamp(name)
    ensures d.FromStamp? ==> d.stamp == Timestamp(name)
    ensures d.UnknownDate? <==> !HasStamp(name) && uploadedAt.None?
    ensures d.FromUpload? ==> uploadedAt == Some(d.at)
    ensures !d.FromPublished?
  {
    if HasStamp(name) then FromStamp(Timestamp(name))
    else if uploadedAt.Some? then FromUpload(uploadedAt.value)
    else UnknownDate
  }

  /** The card header's date: that of the first (latest) file, with the release's publication
      time where `formatApkDate` would give up. */
  function HeaderDate(files: seq<ApkFile>, publishedAt: int): (d: DateSource)
    ensures !d.UnknownDate?
    ensures files == [] ==> d == FromPublished(publishedAt)
    ensures files != [] ==>
      d == (if FormatApkDate(files[0].name, files[0].uploadedAt).UnknownDate? then FromPublished(publishedAt)
            else FormatApkDate(files[0].name, files[0].uploadedAt))
  {
    if files == [] then FromPublished(publishedAt)
    else if HasStamp(files[0].name) then FromStamp(Timestamp(files[0].name))
    else if files[0].uploadedAt.Some? then FromUpload(files[0].uploadedAt.value)
    else FromPublished(publishedAt)
  }

  // ---------------------------------------------------------------------------------------
  // Page state

  /** What a release card shows of its files when it has any. */
  datatype PageView = PageView(
    totalApks: nat, totalPages: nat, currentPage: int, firstShown: int, lastShown: int,
    shown: seq<ApkFile>, dates: seq<DateSource>, latestShown: bool, buttons: seq<PageButton>)

  /** What the model keeps of a rendered release card. */
  datatype ReleaseCard = ReleaseCard(
    releaseId: string, files: seq<ApkFile>, headerDate: DateSource, view: Option<PageView>)

  /** `release.apkFiles.sort(...)`, run only when there are files, on an array holding
      them. */
  method SortApkFiles(files: seq<ApkFile>) returns (sorted: seq<ApkFile>)
    ensures sorted == Sorting.SortBy(files, CompareApks)
  {
    var a := new ApkFile[|files|](i requires 0 <= i < |files| => files[i]);
    assert a[..] == files;
    if a.Length > 0 {
      Sorting.SortInPlace(a, CompareApks);
    }
    sorted := a[..];
  }

  /** The page view shows page `page` of `files` with its header range and pagination bar. */
  ghost predicate ShowsPage(v: PageView, files: seq<ApkFile>, page: int)
    requires page >= 1
  {
    && v.totalApks == |files| && v.totalPages == TotalPages(|files|)
    && v.currentPage == page
    && v.shown == PageItems(files, page)
    && v.firstShown == PageStart(page) + 1
    && v.lastShown == Min(PageStart(page) + ApksPerPage, |files|)
    && |v.dates| == |v.shown|
    && (forall k :: 0 <= k < |v.shown| ==> v.dates[k] == FormatApkDate(v.shown[k].name, v.shown[k].uploadedAt))
    && (v.latestShown <==> page == 1 && files != [])
    && PaginationBar(v.buttons, page, v.totalPages)
  }

  /** The file list of a card: the slice for the current page, the "Showing a-b" range and
      the pagination bar. */
  method LayOutPage(files: seq<ApkFile>, page: int) returns (v: PageView)
    requires page >= 1
    ensures ShowsPage(v, files, page)
    ensures |v.shown| <= ApksPerPage
  {
    var total := TotalPages(|files|);
    var buttons := PageButtons(page, total);
    var shown := PageItems(files, page);
    var dates := seq(|shown|, k requires 0 <= k < |shown| => FormatApkDate(shown[k].name, shown[k].uploadedAt));
    v := PageView(
      |files|, total, page, PageStart(page) + 1, Min(PageStart(page) + ApksPerPage, |files|),
      shown, dates, PageStart(page) == 0 && files != [], buttons);
  }

  /** A card shows `release` as the page map `pages` leaves it: its id, its files newest
      first, the header date and, when it has files, the page remembered for its id. */
  ghost predicate CardFor(card: ReleaseCard, release: Release, pages: map<string, int>) {
    && card.releaseId == ReleaseId(release.tag)
    && card.files == Sorting.SortBy(release.apkFiles, CompareApks)
    && card.headerDate == HeaderDate(card.files, release.publishedAt)
    && (card.view.Some? <==> release.apkFiles != [])
    && card.releaseId in pages && pages[card.releaseId] >= 1
    && (card.view.Some? ==> ShowsPage(card.view.value, card.files, pages[card.releaseId]))
  }

  /** One card per release, in order. */
  ghost predicate CardsFor(cards: seq<ReleaseCard>, shown: seq<Release>, pages: map<string, int>) {
    |cards| == |shown| && forall k :: 0 <= k < |cards| ==> CardFor(cards[k], shown[k], pages)
  }

  /** The ids of the rendered cards. */
  function CardIds(cards: seq<ReleaseCard>): set<string> {
    set k | 0 <= k < |cards| :: cards[k].releaseId
  }

  /** Rendering only adds pages: every remembered page stays, and each new entry is page 1
      for one of the cards drawn. */
  ghost predicate PagesAfterRender(before: map<string, int>, after: map<string, int>, cards: seq<ReleaseCard>) {
    && (forall id :: id in before ==> id in after && after[id] == before[id])
    && (forall id :: id in after && id !in before ==> after[id] == 1 && id in CardIds(cards))
  }

  /** A card drawn under one page map is drawn the same under another that agrees on its id. */
  lemma CardForSamePage(card: ReleaseCard, release: Release, p: map<string, int>, q: map<string, int>)
    requires CardFor(card, release, p)
    requires card.releaseId in q && q[card.releaseId] == p[card.releaseId]
    ensures CardFor(card, release, q)
  {
  }

  /** Every drawn card has a remembered page. */
  lemma CardsHavePages(cards: seq<ReleaseCard>, shown: seq<Release>, pages: map<string, int>)
    requires CardsFor(cards, shown, pages)
    ensures forall k :: 0 <= k < |cards| ==> cards[k].releaseId in pages
  {
    forall k | 0 <= k < |cards|
      ensures cards[k].releaseId in pages
    {
      assert CardFor(cards[k], shown[k], pages);
    }
  }

  /** A drawn card with files shows the page remembered for its id. */
  lemma CardsShowPages(cards: seq<ReleaseCard>, shown: seq<Release>, pages: map<string, int>)
    requires CardsFor(cards, shown, pages)
    ensures forall k :: 0 <= k < |cards| && cards[k].view.Some? ==>
      cards[k].releaseId in pages && cards[k].view.value.currentPage == pages[cards[k].releaseId]
  {
    forall k | 0 <= k < |cards| && cards[k].view.Some?
      ensures cards[k].releaseId in pages && cards[k].view.value.currentPage == pages[cards[k].releaseId]
    {
      assert CardFor(cards[k], shown[k], pages);
    }
  }

  /** Rendering after a page change keeps that page and every other remembered one. */
  lemma PagesAfterGoTo(before: map<string, int>, releaseId: string, page: int, after: map<string, int>, cards: seq<ReleaseCard>)
    requires PagesAfterRender(before[releaseId := page], after, cards)
    ensures releaseId in after && after[releaseId] == page
    ensures forall id :: id in before && id != releaseId ==> id in after && after[id] == before[id]
  {
  }

  /** Rendering from an empty page map leaves exactly the drawn ids, all on page 1. */
  lemma FreshPages(after: map<string, int>, cards: seq<ReleaseCard>)
    requires forall k :: 0 <= k < |cards| ==> cards[k].releaseId in after
    requires PagesAfterRender(map[], after, cards)
    ensures after == map id | id in CardIds(cards) :: 1
  {
    var target := map id | id in CardIds(cards) :: 1;
    forall id | id in CardIds(cards)
      ensures id in after
    {
      var k :| 0 <= k < |cards| && cards[k].releaseId == id;
    }
    assert forall id :: id in after <==> id in target;
    assert forall id :: id in after ==> after[id] == target[id];
  }

  /** Drawing one more card keeps the earlier cards as they were: the new card's page entry
      is added only when its id had none. */
  lemma {:induction false} CardsForExtend(
    cards: seq<ReleaseCard>, shown: seq<Release>, k: nat, before: map<string, int>, after: map<string, int>, card: ReleaseCard)
    requires k < |shown| && CardsFor(cards, shown[..k], before)
    requires forall id :: id in before ==> before[id] >= 1
    requires after == InitPage(before, ReleaseId(shown[k].tag))
    requires CardFor(card, shown[k], after)
    ensures CardsFor(cards + [card], shown[..k + 1], after)
  {
    forall m | 0 <= m < k
      ensures CardFor((cards + [card])[m], shown[..k + 1][m], after)
    {
      assert (cards + [card])[m] == cards[m] && shown[..k + 1][m] == shown[..k][m];
      assert CardFor(cards[m], shown[..k][m], before);
      CardForSamePage(cards[m], shown[..k][m], before, after);
    }
    assert (cards + [card])[k] == card && shown[..k + 1][k] == shown[k];
  }

  /** The card ids grow by the new card's id. */
  lemma CardIdsSnoc(cards: seq<ReleaseCard>, card: ReleaseCard)
    ensures CardIds(cards + [card]) == CardIds(cards) + {card.releaseId}
  {
    var all := cards + [card];
    forall id | id in CardIds(all)
      ensures id in CardIds(cards) + {card.releaseId}
    {
      var m :| 0 <= m < |all| && all[m].releaseId == id;
      if m < |cards| { assert cards[m].releaseId == id; }
    }
    forall id | id in CardIds(cards)
      ensures id in CardIds(all)
    {
      var m :| 0 <= m < |cards| && cards[m].releaseId == id;
      assert all[m].releaseId == id;
    }
    assert all[|cards|].releaseId == card.releaseId;
  }

  /** Initialising one more page keeps what `PagesAfterRender` says of the pages. */
  lemma PagesExtend(
    start: map<string, int>, before: map<string, int>, after: map<string, int>, cards: seq<ReleaseCard>, card: ReleaseCard)
    requires PagesAfterRender(start, before, cards)
    requires forall id :: id in before ==> before[id] >= 1
    requires after == InitPage(before, card.releaseId)
    ensures PagesAfterRender(start, after, cards + [card])
  {
    CardIdsSnoc(cards, card);
  }

  class Archive {
    var allReleases: seq<Release>
    var branchFilter: string
    /** The current page of each release card, by release id. */
    var apkPages: map<string, int>

    /** Every remembered page is a real page number. */
    ghost predicate Valid()
      reads this
    {
      forall id :: id in apkPages ==> apkPages[id] >= 1
    }

    /** The releases the page shows: the branch filter, `main` first, newest first. */
    ghost function Shown(): seq<Release>
      reads this
    {
      Sorting.SortBy(FilterByBranch(allReleases, branchFilter), CompareReleases)
    }

    constructor ()
      ensures Valid()
      ensures allReleases == [] && branchFilter == AllBranches && apkPages == map[]
    {
      allReleases := [];
      branchFilter := AllBranches;
      apkPages := map[];
    }

    /** `loadReleases`: a successful, non-empty answer replaces the list, fills the branch
        drop-down and draws the cards; anything else leaves the page state alone. */
    method LoadReleases(fetch: Fetch<ReleasesBody>) returns (refreshed: bool, branches: seq<string>, cards: seq<ReleaseCard>)
      requires Valid()
      modifies this`allReleases, this`apkPages
      ensures Valid()
      ensures allReleases == LoadedReleases(old(allReleases), fetch)
      ensures refreshed <==> fetch.Fetched? && fetch.data.Success() && fetch.data.releases != []
      ensures !refreshed ==> apkPages == old(apkPages) && branches == [] && cards == []
      ensures refreshed ==> branches == UniqueBranches(allReleases)
      ensures refreshed ==> CardsFor(cards, Shown(), apkPages) && PagesAfterRender(old(apkPages), apkPages, cards)
    {
      refreshed := fetch.Fetched? && fetch.data.Success() && fetch.data.releases != [];
      allReleases := LoadedReleases(allReleases, fetch);
      if refreshed {
        branches := UniqueBranches(allReleases);
        cards := RenderReleases();
      } else {
        branches := [];
        cards := [];
      }
    }

    /** `getFilteredReleases`: a filtered copy sorted `main` first, newest first. */
    method GetFilteredReleases() returns (r: seq<Release>)
      ensures r == Sorting.SortBy(FilterByBranch(allReleases, branchFilter), CompareReleases)
    {
      var filtered := FilterByBranch(allReleases, branchFilter);
      var a := new Release[|filtered|](i requires 0 <= i < |filtered| => filtered[i]);
      assert a[..] == filtered;
      Sorting.SortInPlace(a, CompareReleases);
      r := a[..];
    }

    /** `createReleaseCard`: sorts the files newest first, initialises the release's page and
      lays out that page. */
    method CreateReleaseCard(release: Release) returns (card: ReleaseCard)
      requires Valid()
      modifies this`apkPages
      ensures Valid()
      ensures apkPages == InitPage(old(apkPages), ReleaseId(release.tag))
      ensures card.releaseId == ReleaseId(release.tag)
      ensures card.files == Sorting.SortBy(release.apkFiles, CompareApks)
      ensures card.headerDate == HeaderDate(card.files, release.publishedAt)
      ensures card.view.Some? <==> release.apkFiles != []
      ensures card.view.Some? ==> ShowsPage(card.view.value, card.files, apkPages[card.releaseId])
    {
      var id := ReleaseId(release.tag);
      var files := SortApkFiles(release.apkFiles);
      apkPages := InitPage(apkPages, id);
      var view := None;
      if |files| > 0 {
        var v := LayOutPage(files, apkPages[id]);
        view := Some(v);
      }
      card := ReleaseCard(id, files, HeaderDate(files, release.publishedAt), view);
    }

    /** `renderReleases`: one card per filtered release, in order, each with its page
        initialised. */
    method RenderReleases() returns (cards: seq<ReleaseCard>)
      requires Valid()
      modifies this`apkPages
      ensures Valid()
      ensures CardsFor(cards, Shown(), apkPages)
      ensures PagesAfterRender(old(apkPages), apkPages, cards)
    {
      var shown := GetFilteredReleases();
      cards := CreateReleaseCards(shown);
    }

    /** The `forEach` of `renderReleases`. */
    method CreateReleaseCards(shown: seq<Release>) returns (cards: seq<ReleaseCard>)
      requires Valid()
      modifies this`apkPages
      ensures Valid()
      ensures CardsFor(cards, shown, apkPages)
      ensures PagesAfterRender(old(apkPages), apkPages, cards)
    {
      cards := [];
      for k := 0 to |shown|
        invariant Valid()
        invariant CardsFor(cards, shown[..k], apkPages)
        invariant PagesAfterRender(old(apkPages), apkPages, cards)
      {
        ghost var before := apkPages;
        var card := CreateReleaseCard(shown[k]);
        CardsForExtend(cards, shown, k, before, apkPages, card);
        PagesExtend(old(apkPages), before, apkPages, cards, card);
        cards := cards + [card];
      }
      assert shown[..|shown|] == shown;
    }

    /** `goToApkPage`: the given release's page changes, and the cards are drawn again with
        every other page as it was. */
    method GoToApkPage(releaseId: string, page: int) returns (cards: seq<ReleaseCard>)
      requires Valid() && page >= 1
      modifies this`apkPages
      ensures Valid()
      ensures releaseId in apkPages && apkPages[releaseId] == page
      ensures forall id :: id in old(apkPages) && id != releaseId ==> id in apkPages && apkPages[id] == old(apkPages)[id]
      ensures CardsFor(cards, Shown(), apkPages)
      ensures PagesAfterRender(old(apkPages)[releaseId := page], apkPages, cards)
      ensures forall k :: 0 <= k < |cards| && cards[k].releaseId == releaseId && cards[k].view.Some? ==>
        cards[k].view.value.currentPage == page
    {
      ghost var before := apkPages;
      apkPages := apkPages[releaseId := page];
      cards := RenderReleases();
      PagesAfterGoTo(before, releaseId, page, apkPages, cards);
      CardsShowPages(cards, Shown(), apkPages);
    }

    /** The branch drop-down's change listener: a new filter, every page forgotten, and the
        cards drawn again, each on its first page. */
    method ChangeBranchFilter(branch: string) returns (cards: seq<ReleaseCard>)
      modifies this`branchFilter, this`apkPages
      ensures Valid()
      ensures branchFilter == branch
      ensures CardsFor(cards, Sorting.SortBy(FilterByBranch(allReleases, branch), CompareReleases), apkPages)
      ensures apkPages == map id | id in CardIds(cards) :: 1
      ensures forall k :: 0 <= k < |cards| && cards[k].view.Some? ==> cards[k].view.value.currentPage == 1
    {
      branchFilter := branch;
      apkPages := map[];
      cards := RenderReleases();
      CardsHavePages(cards, Shown(), apkPages);
      CardsShowPages(cards, Shown(), apkPages);
      FreshPages(apkPages, cards);
    }

    /** The clear-filters listener: every release, every page forgotten, each card on its
        first page. */
    method ClearFilters() returns (cards: seq<ReleaseCard>)
      modifies this`branchFilter, this`apkPages
      ensures Valid()
      ensures branchFilter == AllBranches
      ensures CardsFor(cards, Sorting.SortBy(allReleases, CompareReleases), apkPages)
      ensures apkPages == map id | id in CardIds(cards) :: 1
      ensures forall k :: 0 <= k < |cards| && cards[k].view.Some? ==> cards[k].view.value.currentPage == 1
    {
      branchFilter := AllBranches;
      apkPages := map[];
      cards := RenderReleases();
      CardsHavePages(cards, Shown(), apkPages);
      CardsShowPages(cards, Shown(), apkPages);
      FreshPages(apkPages, cards);
    }
  }
}

/** `ElPaisScraper` (src/services/scraper.js) with the browser replaced by
    data: the home page's consent button and section links, the section's
    article containers, and the detail pages by URL. Every bounded wait of
    the source becomes "the element is there" or "it is not". */
module Scraper {
  import opened Wrappers
  import opened JsBuiltins
  import opened FileHelper

  // ---------------------------------------------------------------------
  // configuration (src/config/constants.js)

  const BaseUrl := "https://elpais.com/"
  const ArticleCount := 5
  const ImageDir := "./images"
  /** `path.join(IMAGE_DIR, LIST_SUBDIR)`; `path.join` drops the "./". */
  const ListDir := "images/list"
  /** `path.join(IMAGE_DIR, DETAIL_SUBDIR)` */
  const DetailDir := "images/detail"
  /** `BASE_URL + 'opinion/'`, loaded when the section link does not work. */
  const FallbackUrl := "https://elpais.com/opinion/"

  const TitleDefault := "Title not found"
  const ContentDefault := "(No content preview)"

  /** `path.join(IMAGE_DIR, LIST_SUBDIR, `article_${i + 1}.jpg`)` */
  function ListImagePath(i: nat): string {
    ListDir + "/article_" + NumberToString(i + 1) + ".jpg"
  }

  /** `path.join(IMAGE_DIR, DETAIL_SUBDIR, `article_${i + 1}.jpg`)` */
  function DetailImagePath(i: nat): string {
    DetailDir + "/article_" + NumberToString(i + 1) + ".jpg"
  }

  function Min(a: int, b: int): int {
    if a < b then a else b
  }

  // ---------------------------------------------------------------------
  // the browser as data

  /** Selenium locators: `By.linkText`, `By.partialLinkText`, `By.xpath`. */
  datatype Locator = LinkText(text: string) | PartialLinkText(text: string) | XPath(expr: string)

  /** The locators `findOpinionLink` tries, in order. */
  const OpinionLocators: seq<Locator> := [
    LinkText("Opinión"),
    LinkText("OPINIÓN"),
    PartialLinkText("Opinión"),
    XPath("//a[contains(@href, '/opinion')]")
  ]

  /** What Selenium's `getAttribute` yields: the attribute's value, or
      `null` when it is missing; never `undefined`. */
  type Attribute = v: JsStr | !v.Undefined? witness Null

  /** An `a` element; `href` is what `getAttribute('href')` yields. */
  datatype Anchor = Anchor(href: Attribute)

  /** An `h2` or `header` element: its text and its first `a` descendant. */
  datatype Heading = Heading(text: string, anchor: Option<Anchor>)

  /** An `img` element's `src` and `srcset` attributes (`Null` when absent). */
  datatype Img = Img(src: Attribute, srcset: Attribute)

  /** One `article` container of the section page: the first of each
      element the extractor looks for, when there is one. */
  datatype Container = Container(h2: Option<Heading>, header: Option<Heading>, p: Option<string>, img: Option<Img>)

  /** A detail page: the first match of `article figure img` and of
      `article img`. */
  datatype DetailPage = DetailPage(figureImg: Option<Img>, articleImg: Option<Img>)

  /** Everything the browser would show. */
  datatype Site = Site(
    unreachable: set<string>,            // URLs whose load throws
    consentButton: Option<bool>,         // the consent button, if located in time: is it displayed?
    sectionLinks: map<Locator, string>,  // locators that find a home-page link, and where it leads
    containers: seq<Container>,          // the section's `article` elements, in document order
    details: map<string, DetailPage>)    // detail pages; a reachable URL missing here has no image

  function PageAt(site: Site, url: string): DetailPage {
    if url in site.details then site.details[url] else DetailPage(None, None)
  }

  /** One scraped article. `detailImageUrl` and the two paths are
      `Undefined` until the detail phase assigns them. */
  datatype Article = Article(
    title: string,
    content: string,
    listImageUrl: JsStr,
    articleUrl: JsStr,
    detailImageUrl: JsStr,
    listImagePath: JsStr,
    detailImagePath: JsStr)

  datatype ScrapeError =
    | LoadFailed(url: string)  // `driver.get(url)` threw
    | NoArticles               // no `article` element appeared in time

  // ---------------------------------------------------------------------
  // responsive image candidates

  /** `srcset.split(',')[0].split(' ')[0]`: the list view takes the first
      candidate, untrimmed, up to its first space. */
  function FirstCandidate(srcset: string): (r: string)
    ensures StartsWith(srcset, r) && ',' !in r && ' ' !in r
    ensures |r| == |srcset| || srcset[|r|] == ',' || srcset[|r|] == ' '
  {
    var piece := Split(srcset, ',')[0];
    SplitFirst(srcset, ',');
    SplitFirst(piece, ' ');
    assert srcset[..|piece|] == piece;
    Split(piece, ' ')[0]
  }

  /** `parts[parts.length - 1].trim().split(' ')[0]` with
      `parts = srcset.split(',')`: the detail view takes the last
      candidate, trimmed, up to its first space. */
  function LastCandidate(srcset: string): string {
    Split(Trim(LastOf(Split(srcset, ','))), ' ')[0]
  }

  /** The last candidate is a prefix of the trimmed last comma-separated
      piece, ending where that piece ends or at its first space. */
  lemma LastCandidatePrefix(srcset: string)
    ensures var t := Trim(LastOf(Split(srcset, ',')));
            var r := LastCandidate(srcset);
            StartsWith(t, r) && ' ' !in r && (|r| == |t| || (|r| < |t| && t[|r|] == ' '))
  {
    SplitFirst(Trim(LastOf(Split(srcset, ','))), ' ');
  }

  /** The last candidate holds no comma and no space, and does not start
      with white space. */
  lemma LastCandidateShape(srcset: string)
    ensures var r := LastCandidate(srcset);
            ',' !in r && ' ' !in r && (r == [] || !IsSpace(r[0]))
  {
    var parts := Split(srcset, ',');
    var last := LastOf(parts);
    var t := Trim(last);
    var r := Split(t, ' ')[0];
    SplitFirst(t, ' ');
    assert ',' !in last;
    TrimLacks(last, ',');
    PrefixLacks(t, r, ',');
    assert r != [] ==> r[0] == t[0];
  }

  /** The last candidate is a piece of the srcset itself, taken from after
      its last comma. */
  lemma LastCandidateInSrcset(srcset: string)
    ensures exists k :: OccursAt(srcset, k, LastCandidate(srcset)) && ',' !in srcset[k..]
  {
    var q := LastOf(Split(srcset, ','));
    var ts := TrimStart(q);
    var r := LastCandidate(srcset);
    SplitLast(srcset, ',');
    LastCandidatePrefix(srcset);
    assert Trim(q) == TrimEnd(ts);
    PrefixOfPrefix(ts, TrimEnd(ts), r);
    CandidateAt(srcset, q, ts, r);
  }

  lemma PrefixOfPrefix(a: string, b: string, c: string)
    requires StartsWith(a, b) && StartsWith(b, c)
    ensures StartsWith(a, c)
  {
    assert a[..|c|] == b[..|c|];
  }

  /** A prefix `r` of a suffix `t` of the comma-free suffix `q` of `s`
      occurs in `s`, with no comma after where it starts. */
  lemma CandidateAt(s: string, q: string, t: string, r: string)
    requires EndsWith(s, q) && ',' !in q && EndsWith(q, t) && StartsWith(t, r)
    ensures exists k :: OccursAt(s, k, r) && ',' !in s[k..]
  {
    var k := |s| - |t|;
    assert s[k..] == t;
    assert s[k..k + |r|] == r;
    assert forall i :: k <= i < |s| ==> s[i] == q[i - (|s| - |q|)];
  }

  lemma PrefixLacks(t: string, r: string, c: char)
    requires StartsWith(t, r) && c !in t
    ensures c !in r
  {
    assert forall i :: 0 <= i < |r| ==> r[i] == t[i];
  }

  lemma SuffixLacks(s: string, t: string, c: char)
    requires EndsWith(s, t) && c !in s
    ensures c !in t
  {
    assert forall i :: 0 <= i < |t| ==> t[i] == s[|s| - |t| + i];
  }

  lemma TrimLacks(s: string, c: char)
    requires c !in s
    ensures c !in Trim(s)
  {
    var t := TrimStart(s);
    SuffixLacks(s, t, c);
    PrefixLacks(t, TrimEnd(t), c);
    assert Trim(s) == TrimEnd(t);
  }

  /** The list-view image rule: `src` unless it is falsy or a `data:` URL;
      then the first `srcset` candidate when `srcset` is truthy; otherwise
      `src` as it was (a `data:` URL is kept when there is no `srcset`). */
  function ListImageUrl(img: Img): JsStr {
    if !img.src.Truthy() || StartsWith(img.src.s, "data:") then
      if img.srcset.Truthy() then Str(FirstCandidate(img.srcset.s)) else img.src
    else img.src
  }

  /** The same rule for the detail view, with the last candidate. */
  function DetailImageUrl(img: Img): JsStr {
    if !img.src.Truthy() || StartsWith(img.src.s, "data:") then
      if img.srcset.Truthy() then Str(LastCandidate(img.srcset.s)) else img.src
    else img.src
  }

  // ---------------------------------------------------------------------
  // field extraction

  /** `extractListViewData(article)`: the record the cascades produce. */
  function ListView(c: Container): Article {
    var h2Works := c.h2.Some? && c.h2.value.anchor.Some?;
    var title :=
      if h2Works then c.h2.value.text
      else if c.header.Some? then c.header.value.text
      else if c.h2.Some? then c.h2.value.text
      else TitleDefault;
    var link :=
      if h2Works then c.h2.value.anchor.value.href
      else if c.header.Some? && c.header.value.anchor.Some? then c.header.value.anchor.value.href
      else Null;
    Article(
      title,
      if c.p.Some? then c.p.value else ContentDefault,
      if c.img.Some? then ListImageUrl(c.img.value) else Null,
      link,
      Undefined, Undefined, Undefined)
  }

  /** `extractListViewData(article)` as the source runs it: defaults first,
      then the `h2` attempt, the `header` attempt only when the `h2` attempt
      threw, the `p` attempt and the `img` attempt, each swallowing its own
      failure. */
  method ExtractListViewData(c: Container) returns (d: Article)
    ensures d == ListView(c)
    // neither heading: the placeholders
    ensures c.h2.None? && c.header.None? ==> d.title == TitleDefault && d.articleUrl == Null
    // an h2 with a link wins outright
    ensures c.h2.Some? && c.h2.value.anchor.Some? ==>
              d.title == c.h2.value.text && d.articleUrl == c.h2.value.anchor.value.href
    // the header overrides exactly when the h2 attempt threw
    ensures (c.h2.None? || c.h2.value.anchor.None?) && c.header.Some? ==>
              d.title == c.header.value.text
              && d.articleUrl == (if c.header.value.anchor.Some? then c.header.value.anchor.value.href else Null)
    // an h2 without a link and no header: the h2 text, no link
    ensures c.h2.Some? && c.h2.value.anchor.None? && c.header.None? ==>
              d.title == c.h2.value.text && d.articleUrl == Null
    ensures d.content == if c.p.Some? then c.p.value else ContentDefault
    ensures c.img.None? ==> d.listImageUrl == Null
    ensures c.img.Some? && c.img.value.src.Truthy() && !StartsWith(c.img.value.src.s, "data:") ==>
              d.listImageUrl == c.img.value.src
    ensures c.img.Some? && (!c.img.value.src.Truthy() || StartsWith(c.img.value.src.s, "data:")) ==>
              d.listImageUrl == (if c.img.value.srcset.Truthy() then Str(FirstCandidate(c.img.value.srcset.s))
                                 else c.img.value.src)
    ensures d.detailImageUrl == Undefined && d.listImagePath == Undefined && d.detailImagePath == Undefined
  {
    var title := TitleDefault;
    var content := ContentDefault;
    var listImageUrl: JsStr := Null;
    var articleUrl: JsStr := Null;

    var h2Threw := false;
    match c.h2 {
      case Some(h2) =>
        title := h2.text;
        match h2.anchor {
          case Some(link) => articleUrl := link.href;
          case None => h2Threw := true;
        }
      case None =>
        h2Threw := true;
    }
    if h2Threw {
      match c.header {
        case Some(header) =>
          title := header.text;
          if header.anchor.Some? {
            articleUrl := header.anchor.value.href;
          }
        case None =>
      }
    }

    if c.p.Some? {
      content := c.p.value;
    }

    if c.img.Some? {
      var img := c.img.value;
      listImageUrl := img.src;
      if !listImageUrl.Truthy() || StartsWith(listImageUrl.s, "data:") {
        var srcset := img.srcset;
        if srcset.Truthy() {
          listImageUrl := Str(FirstCandidate(srcset.s));
        }
      }
    }

    d := Article(title, content, listImageUrl, articleUrl, Undefined, Undefined, Undefined);
  }

  /** `extractDetailImage()`: the image a loaded detail page yields. */
  function DetailImage(page: DetailPage): JsStr {
    if page.figureImg.Some? then DetailImageUrl(page.figureImg.value)
    else if page.articleImg.Some? then DetailImageUrl(page.articleImg.value)
    else Null
  }

  /** `extractDetailImage()` as the source runs it: the figure-scoped image,
      else the generic article image, else `null`. */
  method ExtractDetailImage(page: DetailPage) returns (url: JsStr)
    ensures url == DetailImage(page)
    ensures page.figureImg.None? && page.articleImg.None? ==> url == Null
    ensures page.figureImg.Some? ==> url == DetailImageUrl(page.figureImg.value)
    ensures page.figureImg.None? && page.articleImg.Some? ==> url == DetailImageUrl(page.articleImg.value)
    ensures var img := if page.figureImg.Some? then page.figureImg else page.articleImg;
            img.Some? && (!img.value.src.Truthy() || StartsWith(img.value.src.s, "data:")) ==>
              url == (if img.value.srcset.Truthy() then Str(LastCandidate(img.value.srcset.s))
                      else img.value.src)
  {
    var img: Img;
    if page.figureImg.Some? {
      img := page.figureImg.value;
    } else if page.articleImg.Some? {
      img := page.articleImg.value;
    } else {
      return Null;
    }
    url := img.src;
    if !url.Truthy() || StartsWith(url.s, "data:") {
      var srcset := img.srcset;
      if srcset.Truthy() {
        url := Str(LastCandidate(srcset.s));
      }
    }
  }

  // ---------------------------------------------------------------------
  // navigation

  /** The first of `locs` that finds a link. */
  function FirstLocated(links: map<Locator, string>, locs: seq<Locator>): (r: Option<Locator>)
    ensures r.None? <==> forall k :: 0 <= k < |locs| ==> locs[k] !in links
    ensures r.Some? ==> exists k :: 0 <= k < |locs| && locs[k] == r.value && r.value in links
                                    && forall j :: 0 <= j < k ==> locs[j] !in links
  {
    if locs == [] then None
    else if locs[0] in links then Some(locs[0])
    else
      var r := FirstLocated(links, locs[1..]);
      assert forall k :: 1 <= k < |locs| ==> locs[k] == locs[1..][k - 1];
      r
  }

  /** `findOpinionLink()`: tries the four locators in order and returns the
      first that finds a link; `None` is the "Could not locate Opinion
      link" exception. */
  method FindOpinionLink(links: map<Locator, string>) returns (found: Option<Locator>)
    ensures found == FirstLocated(links, OpinionLocators)
  {
    var i := 0;
    while i < |OpinionLocators|
      invariant 0 <= i <= |OpinionLocators|
      invariant FirstLocated(links, OpinionLocators[i..]) == FirstLocated(links, OpinionLocators)
    {
      if OpinionLocators[i] in links {
        return Some(OpinionLocators[i]);
      }
      assert OpinionLocators[i..][1..] == OpinionLocators[i + 1..];
      i := i + 1;
    }
    return None;
  }

  /** What clicking the section link does: the pages it loads, and whether
      the URL then contains "opinion" (the `urlContains` wait succeeds). */
  datatype Click = Click(visits: seq<string>, reached: bool)

  function ClickOutcome(site: Site): Click {
    match FirstLocated(site.sectionLinks, OpinionLocators)
    case None => Click([], false)
    case Some(loc) =>
      var target := site.sectionLinks[loc];
      if target in site.unreachable then Click([], false) else Click([target], Contains(target, "opinion"))
  }

  lemma FallbackIsOpinion()
    ensures Contains(FallbackUrl, "opinion")
  {
    assert OccursAt(FallbackUrl, 19, "opinion");
  }

  // ---------------------------------------------------------------------
  // the detail phase

  /** A record after step 4: its detail page visited when its link is
      truthy; `detailImageUrl` stays unassigned when the load fails. */
  function WithDetail(site: Site, a: Article): Article {
    if a.articleUrl.Truthy() && a.articleUrl.s !in site.unreachable
    then a.(detailImageUrl := DetailImage(PageAt(site, a.articleUrl.s)))
    else a
  }

  /** A record after step 5: each path assigned when its URL is truthy,
      whatever the download then does. */
  function WithPaths(a: Article, i: nat): Article {
    a.(listImagePath := if a.listImageUrl.Truthy() then Str(ListImagePath(i)) else a.listImagePath,
       detailImagePath := if a.detailImageUrl.Truthy() then Str(DetailImagePath(i)) else a.detailImagePath)
  }

  /** The finished record of the `i`-th container. */
  function Processed(site: Site, c: Container, i: nat): Article {
    WithPaths(WithDetail(site, ListView(c)), i)
  }

  /** What the detail phase does to the list record of a container: the
      list fields stay; the detail image is read exactly when the link is
      truthy and loads; each path is `article_<i+1>.jpg` in its directory
      exactly when the matching URL is truthy, and stays unassigned
      otherwise. The paths do not depend on the network: a path is set
      even when its download then fails. */
  lemma ProcessedRecord(site: Site, c: Container, i: nat)
    ensures var a := Processed(site, c, i);
            var l := ListView(c);
            a.title == l.title && a.content == l.content && a.listImageUrl == l.listImageUrl && a.articleUrl == l.articleUrl
    ensures var a := Processed(site, c, i);
            var l := ListView(c);
            (l.articleUrl.Truthy() && l.articleUrl.s !in site.unreachable ==>
               a.detailImageUrl == DetailImage(PageAt(site, l.articleUrl.s)))
            && (!l.articleUrl.Truthy() || l.articleUrl.s in site.unreachable ==> a.detailImageUrl == Undefined)
    ensures var a := Processed(site, c, i);
            (a.listImageUrl.Truthy() ==> a.listImagePath == Str(ListImagePath(i)))
            && (!a.listImageUrl.Truthy() ==> a.listImagePath == Undefined)
            && (a.detailImageUrl.Truthy() ==> a.detailImagePath == Str(DetailImagePath(i)))
            && (!a.detailImageUrl.Truthy() ==> a.detailImagePath == Undefined)
  {
  }

  /** The page loaded while visiting the detail page of `a`: its link,
      when the link is truthy and the load succeeds. */
  function DetailVisit(site: Site, a: Article): seq<string> {
    if a.articleUrl.Truthy() && a.articleUrl.s !in site.unreachable then [a.articleUrl.s] else []
  }

  /** The records after the detail phase, given the list records: the
      record at position `k` finished with index `k`. */
  function Finished(site: Site, recs: seq<Article>): seq<Article> {
    if recs == [] then []
    else Finished(site, recs[..|recs| - 1]) + [WithPaths(WithDetail(site, recs[|recs| - 1]), |recs| - 1)]
  }

  lemma FinishedStep(site: Site, recs: seq<Article>, i: nat)
    requires i < |recs|
    ensures Finished(site, recs[..i + 1]) == Finished(site, recs[..i]) + [WithPaths(WithDetail(site, recs[i]), i)]
  {
    assert recs[..i + 1][..i] == recs[..i];
  }

  /** One finished record per list record, in the same order. */
  lemma {:induction false} FinishedAt(site: Site, recs: seq<Article>)
    ensures |Finished(site, recs)| == |recs|
    ensures forall k :: 0 <= k < |recs| ==> Finished(site, recs)[k] == WithPaths(WithDetail(site, recs[k]), k)
  {
    if recs != [] {
      var n := |recs|;
      FinishedAt(site, recs[..n - 1]);
      assert forall k :: 0 <= k < n - 1 ==> recs[..n - 1][k] == recs[k];
    }
  }

  /** The pages loaded while visiting the detail pages of `recs`. */
  function DetailVisits(site: Site, recs: seq<Article>): seq<string> {
    if recs == [] then [] else DetailVisits(site, recs[..|recs| - 1]) + DetailVisit(site, recs[|recs| - 1])
  }

  /** The disk after the two downloads of the record at position `i`: the
      list image first, then the detail image. */
  function AfterRecord(files: map<string, Data>, a: Article, i: nat, net: Network, fuel: nat): map<string, Data> {
    var mid := Downloaded(files, a.listImageUrl, ListImagePath(i), net, fuel);
    Downloaded(mid, a.detailImageUrl, DetailImagePath(i), net, fuel)
  }

  /** The disk after the downloads of `recs`, record after record. */
  function AfterDownloads(files: map<string, Data>, recs: seq<Article>, net: Network, fuel: nat): map<string, Data> {
    if recs == [] then files
    else AfterRecord(AfterDownloads(files, recs[..|recs| - 1], net, fuel), recs[|recs| - 1], |recs| - 1, net, fuel)
  }

  lemma AfterDownloadsAppend(files: map<string, Data>, recs: seq<Article>, a: Article, net: Network, fuel: nat)
    ensures AfterDownloads(files, recs + [a], net, fuel) == AfterRecord(AfterDownloads(files, recs, net, fuel), a, |recs|, net, fuel)
  {
    assert (recs + [a])[..|recs|] == recs;
  }

  lemma DetailVisitsAppend(site: Site, recs: seq<Article>, a: Article)
    ensures DetailVisits(site, recs + [a]) == DetailVisits(site, recs) + DetailVisit(site, a)
  {
    assert (recs + [a])[..|recs|] == recs;
  }

  /** A directory path and a file name never collide: list and detail
      paths differ in their directory, and two positions give two names. */
  lemma ImagePathsDistinct(i: nat, j: nat)
    ensures ListImagePath(i) != DetailImagePath(j)
    ensures i != j ==> ListImagePath(i) != ListImagePath(j) && DetailImagePath(i) != DetailImagePath(j)
  {
    assert ListImagePath(i)[7] == 'l' && DetailImagePath(j)[7] == 'd';
    if ListImagePath(i) == ListImagePath(j) {
      SuffixCancels(ListDir + "/article_", NumberToString(i + 1), NumberToString(j + 1), ".jpg");
      NumberToStringInjective(i + 1, j + 1);
    }
    if DetailImagePath(i) == DetailImagePath(j) {
      SuffixCancels(DetailDir + "/article_", NumberToString(i + 1), NumberToString(j + 1), ".jpg");
      NumberToStringInjective(i + 1, j + 1);
    }
  }

  lemma SuffixCancels(a: string, x: string, y: string, b: string)
    requires a + x + b == a + y + b
    ensures x == y
  {
    assert |x| == |y|;
    assert x == (a + x + b)[|a|..|a| + |x|];
    assert y == (a + y + b)[|a|..|a| + |y|];
  }

  /** What a path holds, or `None` when there is no file there. */
  function AtPath(files: map<string, Data>, p: string): Option<Data> {
    if p in files then Some(files[p]) else None
  }

  /** What a download that ended in `f` leaves at its destination. */
  function Written(f: Fetch): Option<Data> {
    match f
    case Saved(body) => Some(Binary(body))
    case Removed(_) => None
    case LeftEmpty(_) => Some(Binary([]))
  }

  lemma ApplyAt(files: map<string, Data>, path: string, f: Fetch, p: string)
    ensures AtPath(Apply(files, path, f), p) == if p == path then Written(f) else AtPath(files, p)
  {
    if p != path {
      assert p in Apply(files, path, f) <==> p in files;
    }
  }

  /** The two images of a record: the one on the list page and the one on
      its detail page. */
  datatype ImageKind = ListImage | DetailImage

  function ImagePath(kind: ImageKind, i: nat): string {
    if kind == ListImage then ListImagePath(i) else DetailImagePath(i)
  }

  function ImageUrl(a: Article, kind: ImageKind): JsStr {
    if kind == ListImage then a.listImageUrl else a.detailImageUrl
  }

  /** The downloads of the record at position `i` leave every path other
      than its two image paths as it was. */
  lemma AfterRecordElsewhere(m: map<string, Data>, a: Article, i: nat, net: Network, fuel: nat, p: string)
    requires p != ListImagePath(i) && p != DetailImagePath(i)
    ensures AtPath(AfterRecord(m, a, i, net, fuel), p) == AtPath(m, p)
  {
    var mid := Downloaded(m, a.listImageUrl, ListImagePath(i), net, fuel);
    if a.listImageUrl.Truthy() {
      ApplyAt(m, ListImagePath(i), Resolve(a.listImageUrl.s, net, fuel), p);
    }
    if a.detailImageUrl.Truthy() {
      ApplyAt(mid, DetailImagePath(i), Resolve(a.detailImageUrl.s, net, fuel), p);
    }
  }

  /** Each image path of the record at position `i` holds what its own
      download left there, or what it held before when the URL is falsy. */
  lemma AfterRecordOwn(m: map<string, Data>, a: Article, i: nat, net: Network, fuel: nat, kind: ImageKind)
    ensures ImageUrl(a, kind).Truthy() ==>
              AtPath(AfterRecord(m, a, i, net, fuel), ImagePath(kind, i)) == Written(Resolve(ImageUrl(a, kind).s, net, fuel))
    ensures !ImageUrl(a, kind).Truthy() ==>
              AtPath(AfterRecord(m, a, i, net, fuel), ImagePath(kind, i)) == AtPath(m, ImagePath(kind, i))
  {
    ImagePathsDistinct(i, i);
    var p := ImagePath(kind, i);
    var mid := Downloaded(m, a.listImageUrl, ListImagePath(i), net, fuel);
    if a.listImageUrl.Truthy() {
      ApplyAt(m, ListImagePath(i), Resolve(a.listImageUrl.s, net, fuel), p);
    }
    if a.detailImageUrl.Truthy() {
      ApplyAt(mid, DetailImagePath(i), Resolve(a.detailImageUrl.s, net, fuel), p);
    }
  }

  /** After the detail phase each image path of a record holds exactly what
      that record's own download left there: the body when it succeeded,
      nothing when it failed (an empty file when `client.get` threw), and
      the earlier contents when the URL was falsy and no download ran. */
  lemma ImageFileAfterDownloads(files: map<string, Data>, recs: seq<Article>, net: Network, fuel: nat, i: nat, kind: ImageKind)
    requires i < |recs|
    ensures ImageUrl(recs[i], kind).Truthy() ==>
              AtPath(AfterDownloads(files, recs, net, fuel), ImagePath(kind, i)) == Written(Resolve(ImageUrl(recs[i], kind).s, net, fuel))
    ensures !ImageUrl(recs[i], kind).Truthy() ==>
              AtPath(AfterDownloads(files, recs, net, fuel), ImagePath(kind, i)) == AtPath(files, ImagePath(kind, i))
  {
    var p := ImagePath(kind, i);
    forall k | 0 <= k < |recs| && k != i
      ensures p != ListImagePath(k) && p != DetailImagePath(k)
    {
      ImagePathsDistinct(i, k);
      ImagePathsDistinct(k, i);
    }
    UntouchedAfter(files, recs, i + 1, net, fuel, p);
    var upto := recs[..i + 1];
    assert upto[..i] == recs[..i];
    var before := AfterDownloads(files, recs[..i], net, fuel);
    assert AfterDownloads(files, upto, net, fuel) == AfterRecord(before, recs[i], i, net, fuel);
    AfterRecordOwn(before, recs[i], i, net, fuel, kind);
    UntouchedAfter(files, recs[..i], 0, net, fuel, p);
    assert recs[..i][..0] == [];
  }

  /** The downloads of the records from position `j` on leave every path
      that is not one of their image paths as the earlier downloads left it. */
  lemma {:induction false} UntouchedAfter(files: map<string, Data>, recs: seq<Article>, j: nat, net: Network, fuel: nat, p: string)
    requires j <= |recs|
    requires forall k :: j <= k < |recs| ==> p != ListImagePath(k) && p != DetailImagePath(k)
    ensures AtPath(AfterDownloads(files, recs, net, fuel), p) == AtPath(AfterDownloads(files, recs[..j], net, fuel), p)
    decreases |recs|
  {
    var n := |recs|;
    if j < n {
      AfterRecordElsewhere(AfterDownloads(files, recs[..n - 1], net, fuel), recs[n - 1], n - 1, net, fuel, p);
      assert recs[..n - 1][..j] == recs[..j];
      UntouchedAfter(files, recs[..n - 1], j, net, fuel, p);
    } else {
      assert recs[..j] == recs;
    }
  }

  /** Paths that are not image paths of a record are left as they were. */
  lemma UntouchedByDownloads(files: map<string, Data>, recs: seq<Article>, net: Network, fuel: nat, p: string)
    requires forall i :: 0 <= i < |recs| ==> p != ListImagePath(i) && p != DetailImagePath(i)
    ensures AtPath(AfterDownloads(files, recs, net, fuel), p) == AtPath(files, p)
  {
    UntouchedAfter(files, recs, 0, net, fuel, p);
    assert recs[..0] == [];
  }

  /** The first loop of `scrapeArticles()`: the list record of each of the
      first `limit` containers, in document order. */
  method CollectListData(articles: seq<Container>, limit: nat) returns (scraped: seq<Article>)
    requires limit <= |articles|
    ensures |scraped| == limit
    ensures forall k :: 0 <= k < limit ==> scraped[k] == ListView(articles[k])
  {
    scraped := [];
    var i := 0;
    while i < limit
      invariant 0 <= i <= limit
      invariant |scraped| == i
      invariant forall k :: 0 <= k < i ==> scraped[k] == ListView(articles[k])
    {
      var data := ExtractListViewData(articles[i]);
      scraped := scraped + [data];
      i := i + 1;
    }
  }

  /** The browser session: the scraper owns it from `initializeDriver` to
      `close`. `history` lists the pages loaded, oldest first. */
  class ElPaisScraper {
    const site: Site
    var driverOpen: bool
    var history: seq<string>
    var consentAccepted: bool

    constructor (site: Site)
      ensures this.site == site && !driverOpen && history == [] && !consentAccepted
    {
      this.site := site;
      driverOpen := false;
      history := [];
      consentAccepted := false;
    }

    /** The browser's current URL (a fresh Chrome session shows "data:,"). */
    function CurrentUrl(): string
      reads this
    {
      if history == [] then "data:," else history[|history| - 1]
    }

    /** `initializeDriver()`: the three image directories, then the
        session (building the Chrome driver is not modelled). */
    method InitializeDriver(fs: FileSystem)
      modifies this, fs
      ensures driverOpen && history == old(history) && consentAccepted == old(consentAccepted)
      ensures fs.files == old(fs.files)
      ensures fs.dirs == WithDirectory(WithDirectory(WithDirectory(old(fs.dirs), fs.files, ImageDir),
                                                     fs.files, ListDir), fs.files, DetailDir)
    {
      fs.EnsureDirectoryExistence(ImageDir);
      fs.EnsureDirectoryExistence(ListDir);
      fs.EnsureDirectoryExistence(DetailDir);
      driverOpen := true;
    }

    /** `driver.get(url)`: fails (returns false) exactly for an unreachable
        URL, and otherwise makes `url` the current page. */
    method Load(url: string) returns (ok: bool)
      requires driverOpen
      modifies this
      ensures ok == (url !in site.unreachable)
      ensures history == if ok then old(history) + [url] else old(history)
      ensures driverOpen && consentAccepted == old(consentAccepted)
    {
      ok := url !in site.unreachable;
      if ok {
        history := history + [url];
      }
    }

    /** `navigateToHome()`: a failed load propagates. */
    method NavigateToHome() returns (r: Result<(), ScrapeError>)
      requires driverOpen
      modifies this
      ensures r.Ok? <==> BaseUrl !in site.unreachable
      ensures r.Err? ==> r.error == LoadFailed(BaseUrl) && history == old(history)
      ensures r.Ok? ==> history == old(history) + [BaseUrl]
      ensures driverOpen && consentAccepted == old(consentAccepted)
    {
      var ok := Load(BaseUrl);
      if !ok {
        return Err(LoadFailed(BaseUrl));
      }
      return Ok(());
    }

    /** `handleCookies()`: never fails; clicks the button exactly when it
        was located and is displayed. */
    method HandleCookies()
      requires driverOpen
      modifies this
      ensures consentAccepted == (old(consentAccepted) || site.consentButton == Some(true))
      ensures history == old(history) && driverOpen
    {
      match site.consentButton
      case Some(displayed) =>
        if displayed {
          consentAccepted := true;
        }
      case None =>
    }

    /** `navigateToOpinion()`: click the first link the locators find and
        wait for an "opinion" URL; on any failure of these, load
        `BASE_URL + 'opinion/'`. Only a failure of that last load
        propagates. */
    method NavigateToOpinion() returns (r: Result<(), ScrapeError>)
      requires driverOpen
      modifies this
      ensures var Click(visits, reached) := ClickOutcome(site);
              && (reached ==> r.Ok? && history == old(history) + visits)
              && (!reached && FallbackUrl !in site.unreachable ==>
                    r.Ok? && history == old(history) + visits + [FallbackUrl])
              && (!reached && FallbackUrl in site.unreachable ==>
                    r == Err(LoadFailed(FallbackUrl)) && history == old(history) + visits)
      ensures r.Ok? ==> Contains(CurrentUrl(), "opinion")
      ensures driverOpen && consentAccepted == old(consentAccepted)
    {
      var reached := false;
      var link := FindOpinionLink(site.sectionLinks);
      if link.Some? {
        var target := site.sectionLinks[link.value];
        var clicked := Load(target);
        reached := clicked && Contains(target, "opinion");
      }
      if !reached {
        var ok := Load(FallbackUrl);
        if !ok {
          return Err(LoadFailed(FallbackUrl));
        }
        FallbackIsOpinion();
      }
      return Ok(());
    }

    /** One iteration of the detail phase for the record at position `i`:
        the detail visit, then the list and the detail download, each
        failure swallowed. */
    method ProcessArticle(a: Article, i: nat, fs: FileSystem, net: Network, fuel: nat) returns (done: Article)
      requires driverOpen
      modifies this, fs
      ensures done == WithPaths(WithDetail(site, a), i)
      ensures history == old(history) + DetailVisit(site, a)
      ensures fs.files == AfterRecord(old(fs.files), done, i, net, fuel)
      ensures fs.dirs == old(fs.dirs)
      ensures driverOpen && consentAccepted == old(consentAccepted)
    {
      var item := a;
      if item.articleUrl.Truthy() {
        var loaded := Load(item.articleUrl.s);
        if loaded {
          var detail := ExtractDetailImage(PageAt(site, item.articleUrl.s));
          item := item.(detailImageUrl := detail);
        }
      }
      ghost var start := fs.files;
      if item.listImageUrl.Truthy() {
        item := item.(listImagePath := Str(ListImagePath(i)));
        var _ := fs.DownloadImage(item.listImageUrl, item.listImagePath.s, net, fuel);
      }
      assert fs.files == Downloaded(start, item.listImageUrl, ListImagePath(i), net, fuel);
      ghost var mid := fs.files;
      if item.detailImageUrl.Truthy() {
        item := item.(detailImagePath := Str(DetailImagePath(i)));
        var _ := fs.DownloadImage(item.detailImageUrl, item.detailImagePath.s, net, fuel);
      }
      assert fs.files == Downloaded(mid, item.detailImageUrl, DetailImagePath(i), net, fuel);
      done := item;
    }

    /** `scrapeArticles()`: waits for the containers (none is fatal), takes
        the first `min(found, ARTICLE_COUNT)` in order, extracts each list
        record, then runs the detail phase record by record. */
    method ScrapeArticles(fs: FileSystem, net: Network, fuel: nat) returns (r: Result<seq<Article>, ScrapeError>)
      requires driverOpen
      modifies this, fs
      ensures |site.containers| == 0 ==>
                r == Err(NoArticles) && fs.files == old(fs.files) && history == old(history)
      ensures |site.containers| > 0 ==>
                && r.Ok?
                && |r.value| == Min(|site.containers|, ArticleCount)
                && (forall i :: 0 <= i < |r.value| ==> r.value[i] == Processed(site, site.containers[i], i))
                && history == old(history) + DetailVisits(site, r.value)
                && fs.files == AfterDownloads(old(fs.files), r.value, net, fuel)
      ensures fs.dirs == old(fs.dirs)
      ensures driverOpen && consentAccepted == old(consentAccepted)
    {
      var articles := site.containers;
      if |articles| == 0 {
        return Err(NoArticles);
      }
      var limit := Min(|articles|, ArticleCount);
      var scraped := CollectListData(articles, limit);
      ghost var records := scraped;
      scraped := DetailPhase(scraped, fs, net, fuel);
      FinishedAt(site, records);
      return Ok(scraped);
    }

    /** The second loop of `scrapeArticles()`: each record in turn gets its
        detail visit and its downloads; `scraped` holds the records
        finished so far. */
    method DetailPhase(records: seq<Article>, fs: FileSystem, net: Network, fuel: nat) returns (scraped: seq<Article>)
      requires driverOpen
      modifies this, fs
      ensures scraped == Finished(site, records)
      ensures history == old(history) + DetailVisits(site, scraped)
      ensures fs.files == AfterDownloads(old(fs.files), scraped, net, fuel)
      ensures fs.dirs == old(fs.dirs)
      ensures driverOpen && consentAccepted == old(consentAccepted)
    {
      scraped := [];
      for i := 0 to |records|
        invariant scraped == Finished(site, records[..i])
        invariant history == old(history) + DetailVisits(site, scraped)
        invariant fs.files == AfterDownloads(old(fs.files), scraped, net, fuel)
        invariant fs.dirs == old(fs.dirs)
        invariant driverOpen && consentAccepted == old(consentAccepted)
      {
        FinishedStep(site, records, i);
        FinishedAt(site, records[..i]);
        scraped := DetailStep(records[i], scraped, fs, net, fuel, old(history), old(fs.files));
      }
      assert records[..|records|] == records;
    }

    /** One pass of that loop: the next record is processed, with its
        position as index, and appended to the finished ones. */
    method DetailStep(a: Article, scraped: seq<Article>, fs: FileSystem, net: Network, fuel: nat,
                      ghost history0: seq<string>, ghost files0: map<string, Data>) returns (next: seq<Article>)
      requires driverOpen
      requires history == history0 + DetailVisits(site, scraped)
      requires fs.files == AfterDownloads(files0, scraped, net, fuel)
      modifies this, fs
      ensures next == scraped + [WithPaths(WithDetail(site, a), |scraped|)]
      ensures history == history0 + DetailVisits(site, next)
      ensures fs.files == AfterDownloads(files0, next, net, fuel)
      ensures fs.dirs == old(fs.dirs)
      ensures driverOpen && consentAccepted == old(consentAccepted)
    {
      var item := ProcessArticle(a, |scraped|, fs, net, fuel);
      DetailVisitsAppend(site, scraped, item);
      AfterDownloadsAppend(files0, scraped, item, net, fuel);
      next := scraped + [item];
    }

    /** `close()`: quits the session if there is one. */
    method Close()
      modifies this
      ensures !driverOpen && history == old(history) && consentAccepted == old(consentAccepted)
    {
      if driverOpen {
        driverOpen := false;
      }
    }
  }
}

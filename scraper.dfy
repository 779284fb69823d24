/** Link discovery for one legislative period: the carousel of download links is walked page
    by page by clicking its "next" control, and the links found are collected and sorted by
    file name, largest first. The browser is replaced by an abstract sequence of pages. */
module Scraper {
  import opened Wrappers
  import opened Strings

  /** The links found for one period. */
  datatype ProtocolUrls = ProtocolUrls(period: string, urls: seq<string>)

  /** The text holds no `/`. */
  predicate NoSlash(s: string)
  {
    forall k :: 0 <= k < |s| ==> s[k] != '/'
  }

  /** The file name of a link: `link.split("/")[-1]`. */
  function SplitLink(link: string): string
    decreases |link|
  {
    if |link| == 0 then ""
    else if link[|link| - 1] == '/' then ""
    else SplitLink(link[..|link| - 1]) + [link[|link| - 1]]
  }

  lemma {:induction false} SplitLinkIsSuffix(link: string)
    ensures |SplitLink(link)| <= |link|
    ensures SplitLink(link) == link[|link| - |SplitLink(link)|..]
    decreases |link|
  {
    if |link| > 0 && link[|link| - 1] != '/' {
      var init := link[..|link| - 1];
      SplitLinkIsSuffix(init);
      var r0 := SplitLink(init);
      assert SplitLink(link) == r0 + [link[|link| - 1]];
      assert link[|init| - |r0|..|link| - 1] == init[|init| - |r0|..];
      assert link[|link| - |r0| - 1..] == link[|init| - |r0|..|link| - 1] + [link[|link| - 1]];
    }
  }

  lemma {:induction false} SplitLinkHasNoSlash(link: string)
    ensures NoSlash(SplitLink(link))
    decreases |link|
  {
    if |link| > 0 && link[|link| - 1] != '/' {
      var init := link[..|link| - 1];
      SplitLinkHasNoSlash(init);
      var r0 := SplitLink(init);
      var r := SplitLink(link);
      assert r == r0 + [link[|link| - 1]];
      assert forall k :: 0 <= k < |r0| ==> r[k] == r0[k];
    }
  }

  lemma {:induction false} SplitLinkAfterBoundary(link: string)
    ensures |SplitLink(link)| < |link| ==> link[|link| - |SplitLink(link)| - 1] == '/'
    decreases |link|
  {
    if |link| > 0 && link[|link| - 1] != '/' {
      var init := link[..|link| - 1];
      SplitLinkAfterBoundary(init);
      var r0 := SplitLink(init);
      assert |SplitLink(link)| == |r0| + 1;
      if |r0| < |init| {
        assert link[|init| - |r0| - 1] == init[|init| - |r0| - 1];
      }
    }
  }

  /** The file name is the longest suffix of the link without `/`: it holds no `/`, and it is
      either the whole link or preceded by a `/`. */
  lemma SplitLinkSuffix(link: string)
    ensures |SplitLink(link)| <= |link|
    ensures SplitLink(link) == link[|link| - |SplitLink(link)|..]
    ensures NoSlash(SplitLink(link))
    ensures |SplitLink(link)| < |link| ==> link[|link| - |SplitLink(link)| - 1] == '/'
  {
    SplitLinkIsSuffix(link);
    SplitLinkHasNoSlash(link);
    SplitLinkAfterBoundary(link);
  }

  /** A link without `/` is its own file name. */
  lemma SplitLinkNoSlash(link: string)
    requires NoSlash(link)
    ensures SplitLink(link) == link
  {
    SplitLinkSuffix(link);
  }

  /** The file name is whatever follows the last separator. */
  lemma SplitLinkAfterSlash(prefix: string, name: string)
    requires NoSlash(name)
    ensures SplitLink(prefix + "/" + name) == name
  {
    var link := prefix + "/" + name;
    var n := |link|;
    SplitLinkSuffix(link);
    assert link[n - |name|..] == name;
    assert link[n - |name| - 1] == '/';
  }

  /** What the query for the "next" control returns on a page. */
  datatype NextControl = Absent | Enabled | Disabled

  /** One state of the carousel: the `href` of every download anchor (an anchor may have none),
      the "next" control, and whether the period's container element can be found. */
  datatype Page = Page(hrefs: seq<Option<string>>, next: NextControl, containerPresent: bool)

  /** Why the crawl loop stopped. */
  datatype Stop =
    | NoContainer          // the container is missing on the landing page
    | NoNextControl        // the landing page has no "next" control: the loop never runs
    | ContainerLost        // the container is missing when re-queried at the top of the loop
    | LastPageHarvested    // the page reached with a disabled "next" control has been harvested
    | NextControlVanished  // the page reached by a click has no "next" control

  /** How a crawl ends: harvest passes, clicks and the reason; or the click that would move past
      the last modelled page. */
  datatype Run = Stopped(harvests: nat, clicks: nat, reason: Stop) | RanOutOfPages

  /** The links of one page: each present `href`. */
  function PageUrls(hrefs: seq<Option<string>>): set<string>
    decreases |hrefs|
  {
    if |hrefs| == 0 then {}
    else
      PageUrls(hrefs[..|hrefs| - 1])
      + (match hrefs[|hrefs| - 1] case Some(u) => {u} case None => {})
  }

  /** The links of the first `h` pages. */
  function HarvestedUrls(pages: seq<Page>, h: nat): set<string>
    requires h <= |pages|
  {
    if h == 0 then {} else HarvestedUrls(pages, h - 1) + PageUrls(pages[h - 1].hrefs)
  }

  /** The crawl loop entered on page `i`, `i` clicks after the landing page, with the
      "last page reached" flag `lastReached`. */
  function LoopRun(pages: seq<Page>, i: nat, lastReached: bool): (r: Run)
    requires i < |pages|
    ensures r.Stopped? ==> r.clicks < |pages| && r.harvests <= |pages| && i <= r.clicks
    decreases |pages| - i
  {
    if !pages[i].containerPresent then Stopped(i, i, ContainerLost)
    else if lastReached then Stopped(i + 1, i, LastPageHarvested)
    else if i + 1 == |pages| then RanOutOfPages
    else match pages[i + 1].next
      case Absent => Stopped(i + 1, i + 1, NextControlVanished)
      case Disabled => LoopRun(pages, i + 1, true)
      case Enabled => LoopRun(pages, i + 1, false)
  }

  /** The whole crawl of a carousel whose landing page is `pages[0]`. */
  function CrawlRun(pages: seq<Page>): (r: Run)
    requires |pages| > 0
    ensures r.Stopped? ==> r.clicks < |pages| && r.harvests <= |pages|
  {
    if !pages[0].containerPresent then Stopped(0, 0, NoContainer)
    else if pages[0].next == Absent then Stopped(0, 0, NoNextControl)
    else LoopRun(pages, 0, false)
  }

  /** A crawl that is not cut short by the model's finite page sequence. */
  datatype CrawlOutcome = Finished(result: ProtocolUrls) | OutOfPages

  /** The crawl makes at least `k` clicks: the landing page has the container and a "next"
      control, and each of the pages `1 .. k - 1` reached by a click still has the container and
      an enabled "next" control. */
  ghost predicate ClicksAtLeast(pages: seq<Page>, k: nat)
  {
    && k < |pages|
    && pages[0].containerPresent && pages[0].next != Absent
    && forall j :: 0 < j < k ==> pages[j].containerPresent && pages[j].next == Enabled
  }

  lemma {:induction false} LoopReaches(pages: seq<Page>, i: nat, k: nat)
    requires i <= k && ClicksAtLeast(pages, k)
    requires i == 0 || pages[i].next == Enabled
    requires k == 0 || pages[k].next != Absent
    ensures LoopRun(pages, i, false) == LoopRun(pages, k, k > 0 && pages[k].next == Disabled)
    decreases k - i
  {
    if i < k {
      assert pages[i].containerPresent;
      if i + 1 < k {
        LoopReaches(pages, i + 1, k);
      }
    }
  }

  /** After `k` clicks whose landing pages kept the container and an enabled "next" control, the
      loop is entered on page `k`, with the "last page" flag set exactly when that page's "next"
      control is disabled. */
  lemma CrawlReachesPage(pages: seq<Page>, k: nat)
    requires ClicksAtLeast(pages, k)
    requires k == 0 || pages[k].next != Absent
    ensures CrawlRun(pages) == LoopRun(pages, k, k > 0 && pages[k].next == Disabled)
  {
    LoopReaches(pages, 0, k);
  }

  /** A click that lands on a page with a disabled "next" control is the last one: that page is
      harvested once more, and harvest passes are one more than clicks. */
  lemma DisabledPageEndsCrawl(pages: seq<Page>, k: nat)
    requires k > 0 && ClicksAtLeast(pages, k)
    requires pages[k].next == Disabled && pages[k].containerPresent
    ensures CrawlRun(pages) == Stopped(k + 1, k, LastPageHarvested)
  {
    CrawlReachesPage(pages, k);
  }

  /** A click that lands on a page where the container cannot be found again ends the crawl
      without harvesting that page. */
  lemma ContainerLostEndsCrawl(pages: seq<Page>, k: nat)
    requires k > 0 && ClicksAtLeast(pages, k)
    requires pages[k].next != Absent && !pages[k].containerPresent
    ensures CrawlRun(pages) == Stopped(k, k, ContainerLost)
  {
    CrawlReachesPage(pages, k);
  }

  /** A click that lands on a page without a "next" control ends the crawl without harvesting
      that page. */
  lemma NextVanishedEndsCrawl(pages: seq<Page>, k: nat)
    requires k > 0 && ClicksAtLeast(pages, k)
    requires pages[k].next == Absent
    ensures CrawlRun(pages) == Stopped(k, k, NextControlVanished)
  {
    var i := k - 1;
    assert ClicksAtLeast(pages, i);
    if i > 0 {
      CrawlReachesPage(pages, i);
    }
  }

  lemma {:induction false} LoopLastPage(pages: seq<Page>, i: nat, lastReached: bool)
    requires i < |pages|
    requires i == 0 || pages[i].next != Absent
    requires lastReached <==> i > 0 && pages[i].next == Disabled
    requires LoopRun(pages, i, lastReached).Stopped?
    requires LoopRun(pages, i, lastReached).reason == LastPageHarvested
    ensures var r := LoopRun(pages, i, lastReached);
      && r.harvests == r.clicks + 1 && i <= r.clicks
      && pages[r.clicks].next == Disabled && pages[r.clicks].containerPresent
      && (forall j :: i <= j < r.clicks ==> pages[j].containerPresent)
      && (forall j :: i < j < r.clicks ==> pages[j].next == Enabled)
      && (i == 0 ==> r.clicks > 0)
    decreases |pages| - i
  {
    if pages[i].containerPresent && !lastReached {
      LoopLastPage(pages, i + 1, pages[i + 1].next == Disabled);
    }
  }

  /** Conversely, a crawl ends on its last page only in the situation above: the page reached by
      the last click has a disabled "next" control, every earlier one an enabled control. */
  lemma LastPageMeansDisabled(pages: seq<Page>)
    requires |pages| > 0
    requires CrawlRun(pages).Stopped? && CrawlRun(pages).reason == LastPageHarvested
    ensures var r := CrawlRun(pages);
      && r.clicks > 0 && r.harvests == r.clicks + 1
      && ClicksAtLeast(pages, r.clicks)
      && pages[r.clicks].next == Disabled && pages[r.clicks].containerPresent
  {
    LoopLastPage(pages, 0, false);
  }

  lemma {:induction false} LoopCounts(pages: seq<Page>, i: nat, lastReached: bool)
    requires i < |pages|
    requires LoopRun(pages, i, lastReached).Stopped?
    ensures var r := LoopRun(pages, i, lastReached);
      r.harvests == if r.reason == LastPageHarvested then r.clicks + 1 else r.clicks
    decreases |pages| - i
  {
    if pages[i].containerPresent && !lastReached && i + 1 < |pages| && pages[i + 1].next != Absent {
      LoopCounts(pages, i + 1, pages[i + 1].next == Disabled);
    }
  }

  /** Every crawl harvests once per page it shows, except that the page it stops on is harvested
      only when it stops because the last page was reached. */
  lemma HarvestsPerClick(pages: seq<Page>)
    requires |pages| > 0 && CrawlRun(pages).Stopped?
    ensures var r := CrawlRun(pages);
      r.harvests == if r.reason == LastPageHarvested then r.clicks + 1 else r.clicks
  {
    if pages[0].containerPresent && pages[0].next != Absent {
      LoopCounts(pages, 0, false);
    }
  }

  /** The links collected from the first `h` pages are exactly their present `href`s. */
  lemma {:induction false} HarvestedUrlsExactly(pages: seq<Page>, h: nat, u: string)
    requires h <= |pages|
    ensures u in HarvestedUrls(pages, h) <==>
      exists k, j :: 0 <= k < h && 0 <= j < |pages[k].hrefs| && pages[k].hrefs[j] == Some(u)
  {
    if h > 0 {
      HarvestedUrlsExactly(pages, h - 1, u);
      PageUrlsExactly(pages[h - 1].hrefs, u);
    }
  }

  lemma {:induction false} PageUrlsExactly(hrefs: seq<Option<string>>, u: string)
    ensures u in PageUrls(hrefs) <==> exists j :: 0 <= j < |hrefs| && hrefs[j] == Some(u)
    decreases |hrefs|
  {
    if |hrefs| > 0 {
      var init := hrefs[..|hrefs| - 1];
      PageUrlsExactly(init, u);
      assert forall j :: 0 <= j < |init| ==> init[j] == hrefs[j];
    }
  }

  /** The crawl as it is meant to behave, for comparison with `CrawlRun`: a landing page without
      a "next" control is the carousel's only page, and its links are protocols of the period
      like any other page's, so it is harvested once. */
  function IntendedCrawlRun(pages: seq<Page>): (r: Run)
    requires |pages| > 0
  {
    if pages[0].containerPresent && pages[0].next == Absent then Stopped(1, 0, NoNextControl)
    else CrawlRun(pages)
  }

  lemma {:induction false} LoopHarvestsEntry(pages: seq<Page>, i: nat, lastReached: bool)
    requires i < |pages| && pages[i].containerPresent
    requires LoopRun(pages, i, lastReached).Stopped?
    ensures LoopRun(pages, i, lastReached).harvests > i
    decreases |pages| - i
  {
    if !lastReached && i + 1 < |pages| && pages[i + 1].next != Absent && pages[i + 1].containerPresent {
      LoopHarvestsEntry(pages, i + 1, pages[i + 1].next == Disabled);
    }
  }

  lemma {:induction false} HarvestedUrlsGrow(pages: seq<Page>, k: nat, h: nat)
    requires k < h <= |pages|
    ensures PageUrls(pages[k].hrefs) <= HarvestedUrls(pages, h)
    decreases h
  {
    if k < h - 1 {
      HarvestedUrlsGrow(pages, k, h - 1);
    }
  }

  /** Under the intended crawl, every crawl that finds the container harvests the landing
      page: its links are among those collected. */
  lemma IntendedCrawlHarvestsLanding(pages: seq<Page>)
    requires |pages| > 0 && pages[0].containerPresent && IntendedCrawlRun(pages).Stopped?
    ensures var r := IntendedCrawlRun(pages);
      r.harvests >= 1 && PageUrls(pages[0].hrefs) <= HarvestedUrls(pages, r.harvests)
  {
    if pages[0].next != Absent {
      LoopHarvestsEntry(pages, 0, false);
    }
    HarvestedUrlsGrow(pages, 0, IntendedCrawlRun(pages).harvests);
  }

  /** The two agree except on a landing page without a "next" control, which the code does not
      harvest and the intended crawl harvests once. */
  lemma IntendedCrawlDiffers(pages: seq<Page>)
    requires |pages| > 0
    ensures pages[0].containerPresent && pages[0].next == Absent ==>
      && HarvestedUrls(pages, CrawlRun(pages).harvests) == {}
      && HarvestedUrls(pages, IntendedCrawlRun(pages).harvests) == PageUrls(pages[0].hrefs)
    ensures !pages[0].containerPresent || pages[0].next != Absent ==>
      IntendedCrawlRun(pages) == CrawlRun(pages)
  {
  }

  /** Ordered by file name, largest first. */
  predicate SortedByNameDesc(s: seq<string>)
  {
    SortedDescBy(s, SplitLink)
  }

  /** One harvest pass: every present `href` of the page's download anchors is added. */
  method Harvest(acc: set<string>, xmlDownloads: seq<Option<string>>) returns (urls: set<string>)
    ensures urls == acc + PageUrls(xmlDownloads)
  {
    urls := acc;
    var j := 0;
    while j < |xmlDownloads|
      invariant 0 <= j <= |xmlDownloads|
      invariant urls == acc + PageUrls(xmlDownloads[..j])
    {
      assert xmlDownloads[..j + 1][..j] == xmlDownloads[..j];
      match xmlDownloads[j] {
        case Some(url) => urls := urls + {url};
        case None =>
      }
      j := j + 1;
    }
    assert xmlDownloads[..j] == xmlDownloads;
  }

  /** `find_protocol_urls` for the container `(element id, period)` on a carousel whose
      landing page is `pages[0]` and whose `k`-th click shows `pages[k]`. */
  method FindProtocolUrls(container: (string, string), pages: seq<Page>) returns (outcome: CrawlOutcome)
    requires |pages| > 0
    ensures outcome.OutOfPages? <==> CrawlRun(pages).RanOutOfPages?
    ensures outcome.Finished? ==>
      && outcome.result.period == container.1
      && Distinct(outcome.result.urls)
      && SortedByNameDesc(outcome.result.urls)
      && (forall u :: u in outcome.result.urls <==> u in HarvestedUrls(pages, CrawlRun(pages).harvests))
    ensures !pages[0].containerPresent || pages[0].next == Absent ==>
      outcome == Finished(ProtocolUrls(container.1, []))
  {
    var result := ProtocolUrls(container.1, []);
    if pages[0].containerPresent {
      var downloadUrls: set<string> := {};
      var buttonNext := pages[0].next;
      var lastReached := false;
      var current: nat := 0;
      while buttonNext != Absent
        invariant current < |pages|
        invariant buttonNext == pages[current].next
        invariant lastReached <==> current > 0 && buttonNext == Disabled
        invariant downloadUrls == HarvestedUrls(pages, current)
        invariant buttonNext != Absent ==> CrawlRun(pages) == LoopRun(pages, current, lastReached)
        invariant buttonNext == Absent ==>
          CrawlRun(pages) == if current == 0 then Stopped(0, 0, NoNextControl)
                             else Stopped(current, current, NextControlVanished)
        decreases |pages| - current
      {
        if !pages[current].containerPresent {
          break;
        }
        downloadUrls := Harvest(downloadUrls, pages[current].hrefs);
        if lastReached {
          break;
        }
        // the click shows the next page, if the model has one
        if current + 1 == |pages| {
          return OutOfPages;
        }
        current := current + 1;
        buttonNext := pages[current].next;
        if buttonNext != Absent {
          if buttonNext == Disabled {
            lastReached := true;
          }
        }
      }
      var sorted := SortDescending(downloadUrls, SplitLink);
      result := result.(urls := sorted);
    }
    return Finished(result);
  }
}

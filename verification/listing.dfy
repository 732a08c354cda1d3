/**
 * The listing walker (`get_today_jobs` in scraper.py and scraper_api.py): it
 * fetches the "jobs posted today" pages one after another, turns every listing
 * item that has a title link into a job summary, and stops at the first page
 * that cannot be fetched or holds no items, or, in the API variant, as soon as
 * `max_jobs` summaries have been collected.
 *
 * Fetching and HTML parsing are not modelled: the walk is given what each page
 * yields, in page order.
 */
module Listing {
  import opened Wrappers
  import opened Text

  const BASE_URL: string := "https://www.myjobmag.com"
  const TODAY_URL: string := BASE_URL + "/jobs-by-date/today"

  /** The delimiter between job title and company in a heading. */
  const AT: string := " at "

  /** The `h2 a` anchor of one listing item: its stripped text and its `href` attribute. */
  datatype Anchor = Anchor(text: string, href: Option<string>)

  /** One `li.job-list-li`: its title anchor and the stripped text of its `span a`, if any. */
  datatype ListingItem = ListingItem(titleAnchor: Option<Anchor>, locationText: Option<string>)

  /** What fetching one listing page gives: a non-200 answer, or the items it lists. */
  datatype ListingPage = Unavailable | Listing(items: seq<ListingItem>)

  datatype JobSummary = JobSummary(title: string, company: Option<string>, location: Option<string>, link: string)

  /**
   * The text cut once at the delimiter, both parts stripped, when the text
   * contains the delimiter: the cut is at its first occurrence.
   */
  function SplitAtCompany(text: string): Option<(string, string)> {
    match Find(text, AT)
    case Some(i) => Some((Strip(text[..i]), Strip(text[i + |AT|..])))
    case None => None
  }

  /** The heading is cut exactly when it holds the delimiter, and then at its first occurrence. */
  lemma SplitAtCompanySpec(text: string)
    ensures SplitAtCompany(text).None? <==> forall i :: !OccursAt(text, AT, i)
    ensures SplitAtCompany(text).Some? ==>
      exists i :: IsFirstOccurrence(text, AT, i)
             && SplitAtCompany(text).value == (Strip(text[..i]), Strip(text[i + |AT|..]))
  {
  }

  /**
   * A heading `a + " at " + b` is cut at the delimiter between `a` and `b`
   * whenever `a` holds no earlier delimiter; delimiters inside `b` stay in the
   * company name.
   */
  lemma {:induction false} SplitAtCompanyOfJoin(a: string, b: string)
    requires forall j :: !OccursAt(a + " at", AT, j)
    ensures SplitAtCompany(a + AT + b) == Some((Strip(a), Strip(b)))
  {
    var text := a + AT + b;
    assert OccursAt(text, AT, |a|) by { assert text[|a|..|a| + 4] == AT; }
    forall j | 0 <= j < |a| ensures !OccursAt(text, AT, j) {
      assert text[j..j + 4] == (a + " at")[j..j + 4];
      assert !OccursAt(a + " at", AT, j);
    }
    assert IsFirstOccurrence(text, AT, |a|);
    assert text[..|a|] == a && text[|a| + 4..] == b;
  }

  /**
   * The summary of an item whose title anchor has an `href`: the anchor text is
   * cut into title and company at the first `" at "` (company `None` without
   * one), and the link is the `href` appended to the site's base URL.
   */
  function Summarize(anchor: Anchor, location: Option<string>): JobSummary
    requires anchor.href.Some?
  {
    match SplitAtCompany(anchor.text)
    case Some((title, company)) => JobSummary(title, Some(company), location, BASE_URL + anchor.href.value)
    case None => JobSummary(Strip(anchor.text), None, location, BASE_URL + anchor.href.value)
  }

  /** The summary a listing item yields, or `None` when it has no title link with an `href`. */
  function SummaryOf(item: ListingItem): Option<JobSummary> {
    match item.titleAnchor
    case None => None
    case Some(anchor) => if Truthy(anchor.href) then Some(Summarize(anchor, item.locationText)) else None
  }

  /** The summaries of a page's items, in item order, skipping items without a link. */
  function Summaries(items: seq<ListingItem>): seq<JobSummary>
    decreases |items|
  {
    if items == [] then []
    else
      var last := SummaryOf(items[|items| - 1]);
      Summaries(items[..|items| - 1]) + (if last.Some? then [last.value] else [])
  }

  /** Fetching failed, or the page lists nothing: the walk ends at this page. */
  predicate EndsWalk(page: ListingPage) {
    page.Unavailable? || page.items == []
  }

  /** The 0-based index of the page the walk ends at; pages past the given ones count as failed fetches. */
  function StopIndex(pages: seq<ListingPage>): (k: nat)
    ensures k <= |pages|
    decreases |pages|
  {
    if pages == [] || EndsWalk(pages[0]) then 0 else 1 + StopIndex(pages[1..])
  }

  /** The walk stops at the first page that fails or is empty, and at the end of the given pages otherwise. */
  lemma {:induction false} StopIndexSpec(pages: seq<ListingPage>)
    ensures forall i :: 0 <= i < StopIndex(pages) ==> !EndsWalk(pages[i])
    ensures StopIndex(pages) < |pages| ==> EndsWalk(pages[StopIndex(pages)])
    decreases |pages|
  {
    if pages != [] && !EndsWalk(pages[0]) {
      StopIndexSpec(pages[1..]);
      forall i | 0 < i < StopIndex(pages) ensures !EndsWalk(pages[i]) {
        assert pages[i] == pages[1..][i - 1];
      }
    }
  }

  /** The summaries of the first `k` pages, page after page. */
  function Emitted(pages: seq<ListingPage>, k: nat): seq<JobSummary>
    requires k <= |pages|
    decreases k
  {
    if k == 0 then []
    else
      var page := pages[k - 1];
      Emitted(pages, k - 1) + (if page.Listing? then Summaries(page.items) else [])
  }

  /** Everything the walk collects when nothing cuts it short. */
  function AllSummaries(pages: seq<ListingPage>): seq<JobSummary> {
    Emitted(pages, StopIndex(pages))
  }

  /** The URL of page `n` (counting from 1). */
  function PageUrl(n: nat): string
    requires n >= 1
  {
    if n == 1 then TODAY_URL else TODAY_URL + "/" + NatToDecimal(n)
  }

  /**
   * The effective bound of `max_jobs`: none when it is `None` or `0` (falsy);
   * otherwise the walk returns once the collected count reaches the bound after
   * an append, which for a negative bound is after the first job.
   */
  function Cap(maxJobs: Option<int>): Option<nat> {
    match maxJobs
    case None => None
    case Some(m) => if m == 0 then None else Some(if m >= 1 then m else 1)
  }

  /** The first `cap` elements of `s`, or all of `s` when there is no cap. */
  function Truncate<T>(s: seq<T>, cap: Option<nat>): seq<T> {
    match cap
    case None => s
    case Some(c) => if |s| <= c then s else s[..c]
  }

  lemma TruncateOfPrefix<T>(s: seq<T>, t: seq<T>, c: nat)
    requires s <= t && |s| == c
    ensures Truncate(t, Some(c)) == s
  {
  }

  /** Every page gets its own URL, the first page the bare listing URL. */
  lemma PageUrlInjective(a: nat, b: nat)
    requires a >= 1 && b >= 1 && PageUrl(a) == PageUrl(b)
    ensures a == b
  {
    if a != 1 && b != 1 {
      var n := |TODAY_URL| + 1;
      assert PageUrl(a)[n..] == NatToDecimal(a);
      assert PageUrl(b)[n..] == NatToDecimal(b);
      NatToDecimalInjective(a, b);
    }
  }

  lemma SummariesStep(items: seq<ListingItem>, j: nat)
    requires j < |items|
    ensures Summaries(items[..j + 1])
         == Summaries(items[..j]) + (if SummaryOf(items[j]).Some? then [SummaryOf(items[j]).value] else [])
  {
    assert items[..j + 1][..j] == items[..j];
  }

  lemma {:induction false} SummariesPrefix(items: seq<ListingItem>, j: nat)
    requires j <= |items|
    ensures Summaries(items[..j]) <= Summaries(items)
    decreases |items| - j
  {
    if j < |items| {
      SummariesPrefix(items, j + 1);
      assert items[..j + 1][..j] == items[..j];
      var s := Summaries(items[..j]);
      assert s <= Summaries(items[..j + 1]);
    } else {
      assert items[..j] == items;
    }
  }

  lemma {:induction false} EmittedPrefix(pages: seq<ListingPage>, k: nat, m: nat)
    requires k <= m <= |pages|
    ensures Emitted(pages, k) <= Emitted(pages, m)
    decreases m - k
  {
    if k < m {
      EmittedPrefix(pages, k, m - 1);
    }
  }

  /** Summaries of a page taken so far, after the earlier pages, are a prefix of the full walk. */
  lemma PartialWalkIsPrefix(pages: seq<ListingPage>, k: nat, j: nat)
    requires k < StopIndex(pages) && pages[k].Listing?
    requires j <= |pages[k].items|
    ensures Emitted(pages, k) + Summaries(pages[k].items[..j]) <= AllSummaries(pages)
  {
    SummariesPrefix(pages[k].items, j);
    EmittedPrefix(pages, k + 1, StopIndex(pages));
  }

  /** Every emitted link is the site's base URL followed by a non-empty `href`. */
  lemma {:induction false} SummariesLinks(items: seq<ListingItem>)
    ensures forall s :: s in Summaries(items) ==> StartsWith(s.link, BASE_URL) && |s.link| > |BASE_URL|
    decreases |items|
  {
    if items != [] {
      SummariesLinks(items[..|items| - 1]);
    }
  }

  lemma {:induction false} EmittedLinks(pages: seq<ListingPage>, k: nat)
    requires k <= |pages|
    ensures forall s :: s in Emitted(pages, k) ==> StartsWith(s.link, BASE_URL) && |s.link| > |BASE_URL|
    decreases k
  {
    if k > 0 {
      EmittedLinks(pages, k - 1);
      if pages[k - 1].Listing? {
        SummariesLinks(pages[k - 1].items);
      }
    }
  }

  /** Every emitted summary comes from an item of the page. */
  lemma {:induction false} SummariesFromItems(items: seq<ListingItem>, s: JobSummary)
    requires s in Summaries(items)
    ensures exists i :: 0 <= i < |items| && SummaryOf(items[i]) == Some(s)
    decreases |items|
  {
    var n := |items| - 1;
    SummariesStep(items, n);
    assert items[..n + 1] == items;
    if s in Summaries(items[..n]) {
      SummariesFromItems(items[..n], s);
      var i :| 0 <= i < n && SummaryOf(items[..n][i]) == Some(s);
      assert items[i] == items[..n][i];
    } else {
      assert SummaryOf(items[n]) == Some(s);
    }
  }

  /** Every item with a title link with an `href` has its summary emitted. */
  lemma {:induction false} ItemsSummarized(items: seq<ListingItem>, i: nat)
    requires i < |items| && SummaryOf(items[i]).Some?
    ensures SummaryOf(items[i]).value in Summaries(items)
  {
    SummariesStep(items, i);
    SummariesPrefix(items, i + 1);
    assert SummaryOf(items[i]).value in Summaries(items[..i + 1]);
  }

  /** Reaching the bound part-way through page `k` leaves exactly the capped walk. */
  lemma BoundReached(pages: seq<ListingPage>, k: nat, j: nat, jobs: seq<JobSummary>, maxJobs: Option<int>)
    requires k < StopIndex(pages) && pages[k].Listing? && j <= |pages[k].items|
    requires jobs == Emitted(pages, k) + Summaries(pages[k].items[..j])
    requires Cap(maxJobs).Some? && |jobs| == Cap(maxJobs).value
    ensures jobs == Truncate(AllSummaries(pages), Cap(maxJobs))
    ensures maxJobs.Some? && maxJobs.value >= 1 ==> |jobs| <= maxJobs.value
  {
    PartialWalkIsPrefix(pages, k, j);
    TruncateOfPrefix(jobs, AllSummaries(pages), |jobs|);
  }

  /** A walk that ends without reaching the bound returns everything it collected. */
  lemma WalkDone(pages: seq<ListingPage>, k: nat, jobs: seq<JobSummary>, maxJobs: Option<int>)
    requires k == StopIndex(pages) && jobs == Emitted(pages, k)
    requires Cap(maxJobs).Some? ==> |jobs| < Cap(maxJobs).value
    ensures jobs == Truncate(AllSummaries(pages), Cap(maxJobs))
    ensures maxJobs.Some? && maxJobs.value >= 1 ==> |jobs| <= maxJobs.value
  {
  }

  /** The first page that fails or is empty, after pages that did not, is where the walk stops. */
  lemma WalkStops(pages: seq<ListingPage>, k: nat)
    requires k <= StopIndex(pages)
    requires k == |pages| || EndsWalk(pages[k])
    ensures k == StopIndex(pages)
  {
    StopIndexSpec(pages);
  }

  /** A page that neither fails nor is empty, with the walk not yet stopped before it, is not the last. */
  lemma WalkGoesOn(pages: seq<ListingPage>, k: nat)
    requires k <= StopIndex(pages) && k < |pages| && !EndsWalk(pages[k])
    ensures k < StopIndex(pages)
  {
    StopIndexSpec(pages);
  }

  /** Finishing page `k` completes what the first `k + 1` pages yield. */
  lemma PageDone(pages: seq<ListingPage>, k: nat, jobs: seq<JobSummary>)
    requires k < |pages| && pages[k].Listing?
    requires jobs == Emitted(pages, k) + Summaries(pages[k].items[..|pages[k].items|])
    ensures jobs == Emitted(pages, k + 1)
  {
    assert pages[k].items[..|pages[k].items|] == pages[k].items;
  }

  /**
   * The item loop of one listing page: appends the summary of every item with
   * a title link to `jobs0`, stopping right after an append that brings the
   * list to a truthy `max_jobs`. `taken` is the number of items consumed.
   */
  method CollectPage(items: seq<ListingItem>, jobs0: seq<JobSummary>, maxJobs: Option<int>)
    returns (jobs: seq<JobSummary>, taken: nat, reached: bool)
    requires Cap(maxJobs).Some? ==> |jobs0| < Cap(maxJobs).value
    ensures taken <= |items| && jobs == jobs0 + Summaries(items[..taken])
    ensures reached ==> Cap(maxJobs).Some? && |jobs| == Cap(maxJobs).value
    ensures !reached ==> taken == |items| && (Cap(maxJobs).Some? ==> |jobs| < Cap(maxJobs).value)
  {
    jobs := jobs0;
    taken := 0;
    while taken < |items|
      invariant taken <= |items| && jobs == jobs0 + Summaries(items[..taken])
      invariant Cap(maxJobs).Some? ==> |jobs| < Cap(maxJobs).value
    {
      SummariesStep(items, taken);
      var item := items[taken];
      taken := taken + 1;
      if item.titleAnchor.None? || !Truthy(item.titleAnchor.value.href) {
        continue;
      }
      var anchor := item.titleAnchor.value;
      jobs := jobs + [Summarize(anchor, item.locationText)];
      if maxJobs.Some? && maxJobs.value != 0 && |jobs| >= maxJobs.value {
        return jobs, taken, true;
      }
    }
    reached := false;
  }

  /**
   * `get_today_jobs`: walks pages 1, 2, ... requesting `PageUrl(n)` for each,
   * until a fetch fails or a page is empty, collecting the summaries of every
   * page's items; with a truthy `max_jobs` it returns as soon as the list
   * reaches the bound. `fetched` counts the pages requested: page `n` is
   * requested at `PageUrl(n)`, pages 1 to `fetched` in turn.
   */
  method GetTodayJobs(pages: seq<ListingPage>, maxJobs: Option<int>) returns (jobs: seq<JobSummary>, fetched: nat)
    ensures jobs == Truncate(AllSummaries(pages), Cap(maxJobs))
    ensures maxJobs.Some? && maxJobs.value >= 1 ==> |jobs| <= maxJobs.value
    ensures 1 <= fetched <= StopIndex(pages) + 1
    ensures Cap(maxJobs).None? ==> fetched == StopIndex(pages) + 1
  {
    jobs, fetched := [], 0;
    var page := 1;
    while true
      invariant 1 <= page <= StopIndex(pages) + 1
      invariant fetched == page - 1
      invariant jobs == Emitted(pages, page - 1)
      invariant Cap(maxJobs).Some? ==> |jobs| < Cap(maxJobs).value
      decreases |pages| + 1 - page
    {
      fetched := fetched + 1;
      var response := if page <= |pages| then pages[page - 1] else Unavailable;
      if response.Unavailable? || response.items == [] {
        WalkStops(pages, page - 1);
        WalkDone(pages, page - 1, jobs, maxJobs);
        break;
      }
      WalkGoesOn(pages, page - 1);
      var taken, reached;
      jobs, taken, reached := CollectPage(response.items, jobs, maxJobs);
      if reached {
        BoundReached(pages, page - 1, taken, jobs, maxJobs);
        return;
      }
      PageDone(pages, page - 1, jobs);
      page := page + 1;
    }
  }
}

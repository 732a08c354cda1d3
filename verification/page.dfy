/**
 * What `get_job_details` reads from a parsed job page (scraper.py and
 * scraper_api.py). HTML parsing is not modelled: the page is given as the
 * texts, attributes and search results the resolvers ask the parser for.
 * Every text is already what BeautifulSoup's `get_text` returns with the
 * separator named on the field.
 */
module Page {
  import opened Wrappers

  /** Element names the resolvers distinguish; every other element is `OtherTag`. */
  datatype Tag = H2 | H3 | H4 | Strong | B | Div | OtherTag

  /**
   * An element that follows a heading under the same parent
   * (`find_next_sibling` / `find_next_siblings`).
   */
  datatype Sibling = Sibling(
    tag: Tag,
    /** `get_text(strip=True)` */
    text: string,
    /** `get_text(separator="\n", strip=True)` */
    lines: string,
    /** `get_text(separator=" ", strip=True)`: the application instructions of a section div */
    spaced: string,
    /** the `href` of the first `<a>` inside that has one */
    firstHref: Option<string>,
    /** `get_text(strip=True)` of the first `<strong>` inside, if any */
    strongText: Option<string>,
    /** the first match of the e-mail pattern in `spaced`, if any */
    emailMatch: Option<string>)

  /** An `h2`, `h3`, `h4`, `strong` or `b` element of the page, in document order. */
  datatype Element = Element(
    tag: Tag,
    /** the `id` attribute */
    id: Option<string>,
    /** `get_text(strip=True)` */
    text: string,
    /** the elements after it under the same parent, in order */
    siblings: seq<Sibling>)

  /** One `ul.job-key-info li` row: the texts of its `span.jkey-title` and `span.jkey-info`, when present. */
  datatype KeyInfoRow = KeyInfoRow(key: Option<string>, value: Option<string>)

  datatype DetailPage = DetailPage(
    /** `response.url`: the address the page was finally served from */
    url: string,
    /** the text of the first `h1` */
    h1Text: Option<string>,
    /** the text of `div.company-name a` */
    companyLinkText: Option<string>,
    keyInfo: seq<KeyInfoRow>,
    /** the parent text (joined with spaces) of `b.tc-o`, when the tag and its parent exist */
    postedParentText: Option<string>,
    /** the parent text (joined with spaces) of `b.tc-bl3`, when the tag and its parent exist */
    deadlineParentText: Option<string>,
    elements: seq<Element>,
    /** for each CSS selector that matches, the newline-joined text of its first match */
    sections: map<string, string>,
    /** the text of `div.job-details-section p:first-of-type` */
    firstParagraph: Option<string>,
    /** group 1 of the first salary-pattern match in the page text */
    salaryMatch: Option<string>)

  /** The dictionary `get_job_details` returns; keys it omits are absent from the record. */
  datatype JobDetail = JobDetail(
    title: Option<string>,
    company: Option<string>,
    experience: Option<string>,
    qualification: Option<string>,
    jobType: Option<string>,
    state: Option<string>,
    city: Option<string>,
    salary: Option<string>,
    field: Option<string>,
    postedOn: Option<string>,
    deadline: Option<string>,
    description: Option<string>,
    applyNow: Option<string>)

  /** The index of the first element of `s` that satisfies `p`: what `find` and a loop with `break` select. */
  function FirstIndex<T>(s: seq<T>, p: T -> bool): (r: Option<nat>)
    ensures r.Some? ==> r.value < |s| && p(s[r.value]) && forall j :: 0 <= j < r.value ==> !p(s[j])
    ensures r.None? ==> forall j :: 0 <= j < |s| ==> !p(s[j])
    decreases |s|
  {
    if s == [] then None
    else if p(s[0]) then Some(0)
    else
      match FirstIndex(s[1..], p)
      case None => None
      case Some(i) => Some(i + 1)
  }

  /** An index that satisfies `p` with none before it is the one `FirstIndex` finds. */
  lemma FirstIndexAt<T>(s: seq<T>, p: T -> bool, i: nat)
    requires i < |s| && p(s[i])
    requires forall j :: 0 <= j < i ==> !p(s[j])
    ensures FirstIndex(s, p) == Some(i)
  {
  }

  /** `d.get(k)`. */
  function Lookup(d: map<string, string>, k: string): Option<string> {
    if k in d then Some(d[k]) else None
  }
}

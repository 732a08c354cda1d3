/**
 * The application-method chain of `get_job_details` (scraper.py:160-233,
 * scraper_api.py:133-190): find the application heading, take the first `div`
 * after it, and read a link or an e-mail address out of that div.
 */
module Application {
  import opened Wrappers
  import opened Text
  import opened Page

  const APPLICATION_METHOD_ID: string := "application-method"
  const APPLY_NOW_PREFIX: string := "/apply-now/"
  const DEFAULT_SUBJECT: string := "Job%20Application"

  /** An `h2` whose `id` is `application-method`. */
  predicate IsMarkedHeading(e: Element) {
    e.tag == H2 && e.id == Some(APPLICATION_METHOD_ID)
  }

  /** An `h2` or `h3` whose lower-cased text mentions "application". */
  predicate IsNamedHeading(e: Element) {
    (e.tag == H2 || e.tag == H3) && Contains(Lower(e.text), "application")
  }

  /** The application heading: the first marked `h2`, else the first `h2`/`h3` that names it. */
  function ApplicationHeading(elements: seq<Element>): Option<nat> {
    var marked := FirstIndex(elements, IsMarkedHeading);
    if marked.Some? then marked else FirstIndex(elements, IsNamedHeading)
  }

  /**
   * Locates the application heading: the id lookup first, then the loop over
   * `h2`/`h3` headings that stops at the first one naming the application.
   */
  method LocateApplicationHeading(elements: seq<Element>) returns (heading: Option<nat>)
    ensures heading == ApplicationHeading(elements)
    ensures heading.Some? ==> heading.value < |elements|
  {
    heading := FirstIndex(elements, IsMarkedHeading);
    if heading.None? {
      var i := 0;
      while i < |elements|
        invariant 0 <= i <= |elements|
        invariant forall j :: 0 <= j < i ==> !IsNamedHeading(elements[j])
      {
        if IsNamedHeading(elements[i]) {
          FirstIndexAt(elements, IsNamedHeading, i);
          heading := Some(i);
          return;
        }
        i := i + 1;
      }
    }
  }

  /** The first `div` among the siblings after the heading. */
  function NextDiv(e: Element): Option<Sibling> {
    match FirstIndex(e.siblings, (s: Sibling) => s.tag == Div)
    case None => None
    case Some(i) => Some(e.siblings[i])
  }

  /** The mail subject: the title with each space written `%20`, or the default for a missing or empty title. */
  function Subject(title: Option<string>): (r: string)
    ensures ' ' !in r
    ensures !Truthy(title) ==> r == DEFAULT_SUBJECT
    ensures Truthy(title) ==> r == EncodeSpaces(title.value)
  {
    if Truthy(title) then EncodeSpaces(title.value) else DEFAULT_SUBJECT
  }

  /** A title without `%` can be read back from its subject. */
  lemma SubjectDecodes(title: string)
    requires title != "" && '%' !in title
    ensures DecodeSpaces(Subject(Some(title))) == title
  {
    EncodeSpacesRoundTrip(title);
  }

  /** The address in the div: its first `strong` text when that holds `@`, else the first pattern match. */
  function EmailOf(div: Sibling): (r: Option<string>)
    ensures div.strongText.Some? && Contains(div.strongText.value, "@") ==> r == div.strongText
    ensures !(div.strongText.Some? && Contains(div.strongText.value, "@")) ==> r == div.emailMatch
  {
    if div.strongText.Some? && Contains(div.strongText.value, "@") then div.strongText else div.emailMatch
  }

  function MailTo(email: string, subject: Option<string>): string {
    "mailto:" + email + (if subject.Some? then "?subject=" + subject.value else "")
  }

  /** The first three `/`-separated parts of the response address, rejoined: its scheme and host. */
  function BaseOf(url: string): (r: string)
    ensures r <= url
  {
    var parts := SplitOn(url, '/');
    var k := if |parts| < 3 then |parts| else 3;
    JoinPrefix(parts, '/', k);
    JoinSplit(url, '/');
    JoinWith(parts[..k], '/')
  }

  /** For `scheme://host/path` the base is `scheme://host`. */
  lemma BaseOfSchemeHost(scheme: string, host: string, rest: string)
    requires '/' !in scheme && '/' !in host
    ensures BaseOf(scheme + "//" + host + "/" + rest) == scheme + "//" + host
  {
    var url := scheme + "//" + host + "/" + rest;
    SplitOnPrefix(host, rest, '/');
    assert "" + ['/'] + (host + ['/'] + rest) == "/" + host + "/" + rest;
    SplitOnPrefix("", host + ['/'] + rest, '/');
    assert scheme + ['/'] + ("/" + host + "/" + rest) == url;
    SplitOnPrefix(scheme, "/" + host + "/" + rest, '/');
    var parts := SplitOn(url, '/');
    assert parts == [scheme, "", host] + SplitOn(rest, '/');
    assert parts[..3] == [scheme, "", host];
    assert JoinWith([host], '/') == host;
    assert JoinWith(["", host], '/') == "" + "/" + host;
  }

  /** For `scheme://host` with no path the base is the whole address. */
  lemma BaseOfBareHost(scheme: string, host: string)
    requires '/' !in scheme && '/' !in host
    ensures BaseOf(scheme + "//" + host) == scheme + "//" + host
  {
    var url := scheme + "//" + host;
    SplitOnWithout(host, '/');
    assert "" + ['/'] + host == "/" + host;
    SplitOnPrefix("", host, '/');
    assert scheme + ['/'] + ("/" + host) == url;
    SplitOnPrefix(scheme, "/" + host, '/');
    var parts := SplitOn(url, '/');
    assert parts == [scheme, "", host];
    assert parts[..3] == parts;
    assert JoinWith([host], '/') == host;
    assert JoinWith(["", host], '/') == "" + "/" + host;
  }

  /** The application method read from the div after the heading. */
  function MethodFromDiv(div: Sibling, title: Option<string>, url: string): Option<string> {
    match div.firstHref
    case Some(href) =>
      if StartsWith(href, "http") then Some(href)
      else if StartsWith(href, APPLY_NOW_PREFIX) then Some(BaseOf(url) + href)
      else
        (match EmailOf(div)
         case Some(email) => Some(MailTo(email, Some(Subject(title))))
         case None => None)
    case None =>
      match EmailOf(div)
      case Some(email) => Some(MailTo(email, None))
      case None => None
  }

  /**
   * `application_method`: `None` without an application heading or without a
   * `div` after it; otherwise what the div yields.
   */
  function ApplicationMethod(elements: seq<Element>, title: Option<string>, url: string): Option<string> {
    match ApplicationHeading(elements)
    case None => None
    case Some(i) =>
      match NextDiv(elements[i])
      case None => None
      case Some(div) => MethodFromDiv(div, title, url)
  }

  /** No heading, or no div after it: no application method. */
  lemma NoSectionNoMethod(elements: seq<Element>, title: Option<string>, url: string)
    ensures ApplicationHeading(elements).None? ==> ApplicationMethod(elements, title, url).None?
    ensures ApplicationHeading(elements).Some? && NextDiv(elements[ApplicationHeading(elements).value]).None?
            ==> ApplicationMethod(elements, title, url).None?
  {
  }

  /**
   * The link cases: an `http` link is used as it is; an `/apply-now/` link is
   * appended to the base of the response address.
   */
  lemma LinkMethods(div: Sibling, title: Option<string>, url: string)
    requires div.firstHref.Some?
    ensures StartsWith(div.firstHref.value, "http") ==> MethodFromDiv(div, title, url) == div.firstHref
    ensures !StartsWith(div.firstHref.value, "http") && StartsWith(div.firstHref.value, APPLY_NOW_PREFIX) ==>
      MethodFromDiv(div, title, url) == Some(BaseOf(url) + div.firstHref.value)
  {
  }

  /** An `/apply-now/` link on a page at `scheme://host/path` becomes `scheme://host/apply-now/...`. */
  lemma ApplyNowLink(div: Sibling, title: Option<string>, scheme: string, host: string, rest: string)
    requires '/' !in scheme && '/' !in host
    requires div.firstHref.Some? && StartsWith(div.firstHref.value, APPLY_NOW_PREFIX)
    ensures MethodFromDiv(div, title, scheme + "//" + host + "/" + rest) == Some(scheme + "//" + host + div.firstHref.value)
  {
    var href := div.firstHref.value;
    assert !StartsWith(href, "http") by {
      assert href[0] == APPLY_NOW_PREFIX[0] == '/';
    }
    BaseOfSchemeHost(scheme, host, rest);
  }

  /**
   * Any other link falls back to the e-mail address, with the title as the
   * subject; without a link the address is used with no subject.
   */
  lemma MailMethods(div: Sibling, title: Option<string>, url: string)
    ensures div.firstHref.Some? && !StartsWith(div.firstHref.value, "http") && !StartsWith(div.firstHref.value, APPLY_NOW_PREFIX)
            ==> MethodFromDiv(div, title, url) == (if EmailOf(div).Some? then Some("mailto:" + EmailOf(div).value + "?subject=" + Subject(title)) else None)
    ensures div.firstHref.None?
            ==> MethodFromDiv(div, title, url) == (if EmailOf(div).Some? then Some("mailto:" + EmailOf(div).value) else None)
  {
    if EmailOf(div).Some? {
      var e := EmailOf(div).value;
      assert MailTo(e, None) == "mailto:" + e;
      assert MailTo(e, Some(Subject(title))) == "mailto:" + e + "?subject=" + Subject(title);
    }
  }

  /** An address is `mailto:` followed by the e-mail, so the e-mail can be read back. */
  lemma MailToPrefix(email: string, subject: Option<string>)
    ensures StartsWith(MailTo(email, subject), "mailto:")
    ensures MailTo(email, subject)[7..7 + |email|] == email
  {
  }
}

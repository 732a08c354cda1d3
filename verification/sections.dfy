/**
 * The text-block resolvers of `get_job_details`: description and overview
 * take the first CSS selector in an ordered list that matches (scraper.py:236-273,
 * scraper_api.py:193-205); responsibilities and requirements collect the
 * siblings after the first heading that names them (scraper.py:276-312).
 */
module Sections {
  import opened Wrappers
  import opened Text
  import opened Page

  /** The description selectors of scraper.py, in the order they are tried. */
  const FULL_DESCRIPTION_SELECTORS: seq<string> := [
    "div.job-details-section",
    "div.job-description",
    "div[class*='description']",
    "div.job-details",
    "section.job-content",
    "div#job-description"
  ]

  /** The description selectors of scraper_api.py. */
  const API_DESCRIPTION_SELECTORS: seq<string> := [
    "div.job-details-section",
    "div.job-description",
    "div[class*='description']"
  ]

  const OVERVIEW_SELECTORS: seq<string> := [
    "div.job-overview",
    "div.job-summary",
    "div[class*='overview']",
    "div[class*='summary']",
    "section.overview",
    "div.description-summary"
  ]

  const RESPONSIBILITY_PATTERNS: seq<string> := ["responsibilities", "duties", "key responsibilities", "what you'll do"]
  const REQUIREMENT_PATTERNS: seq<string> := ["requirements", "qualifications", "what we're looking for", "you should have"]

  /**
   * The text of the first selector in `selectors` that matches the page, or
   * `None` when none does. The text of the match is taken even when empty.
   */
  function FirstSelected(selectors: seq<string>, sections: map<string, string>): (r: Option<string>)
    ensures r.None? <==> forall i :: 0 <= i < |selectors| ==> selectors[i] !in sections
    ensures r.Some? ==> exists i :: 0 <= i < |selectors| && selectors[i] in sections
                                   && r.value == sections[selectors[i]]
                                   && forall j :: 0 <= j < i ==> selectors[j] !in sections
    decreases |selectors|
  {
    if selectors == [] then None
    else if selectors[0] in sections then Some(sections[selectors[0]])
    else
      var r := FirstSelected(selectors[1..], sections);
      assert forall i :: 1 <= i < |selectors| ==> selectors[i] == selectors[1..][i - 1];
      r
  }

  /** The selector loop with `break` on the first match. */
  method SelectFirst(selectors: seq<string>, sections: map<string, string>) returns (text: Option<string>)
    ensures text == FirstSelected(selectors, sections)
  {
    text := None;
    var i := 0;
    while i < |selectors|
      invariant 0 <= i <= |selectors|
      invariant FirstSelected(selectors, sections) == FirstSelected(selectors[i..], sections)
    {
      var selector := selectors[i];
      if selector in sections {
        text := Some(sections[selector]);
        return;
      }
      assert selectors[i..][1..] == selectors[i + 1..];
      i := i + 1;
    }
  }

  /** Trying more selectors after a matching prefix list changes nothing. */
  lemma {:induction false} FirstSelectedExtend(selectors: seq<string>, more: seq<string>, sections: map<string, string>)
    requires FirstSelected(selectors, sections).Some?
    ensures FirstSelected(selectors + more, sections) == FirstSelected(selectors, sections)
    decreases |selectors|
  {
    if selectors[0] !in sections {
      assert (selectors + more)[1..] == selectors[1..] + more;
      FirstSelectedExtend(selectors[1..], more, sections);
    }
  }

  /**
   * The two scripts agree on the description whenever one of the shorter
   * list's selectors matches; otherwise the shorter list finds none.
   */
  lemma ApiDescriptionAgrees(sections: map<string, string>)
    ensures FirstSelected(API_DESCRIPTION_SELECTORS, sections).Some? ==>
      FirstSelected(FULL_DESCRIPTION_SELECTORS, sections) == FirstSelected(API_DESCRIPTION_SELECTORS, sections)
  {
    assert FULL_DESCRIPTION_SELECTORS == API_DESCRIPTION_SELECTORS + FULL_DESCRIPTION_SELECTORS[3..];
    if FirstSelected(API_DESCRIPTION_SELECTORS, sections).Some? {
      FirstSelectedExtend(API_DESCRIPTION_SELECTORS, FULL_DESCRIPTION_SELECTORS[3..], sections);
    }
  }

  /**
   * The overview: the first matching overview selector; when that gives nothing
   * or an empty text, the text of the first paragraph of the details section
   * if there is one.
   */
  function Overview(sections: map<string, string>, firstParagraph: Option<string>): (r: Option<string>)
    ensures Truthy(FirstSelected(OVERVIEW_SELECTORS, sections)) ==> r == FirstSelected(OVERVIEW_SELECTORS, sections)
    ensures !Truthy(FirstSelected(OVERVIEW_SELECTORS, sections)) && firstParagraph.Some? ==> r == firstParagraph
    ensures firstParagraph.None? ==> r == FirstSelected(OVERVIEW_SELECTORS, sections)
  {
    var overview := FirstSelected(OVERVIEW_SELECTORS, sections);
    if !Truthy(overview) && firstParagraph.Some? then firstParagraph else overview
  }

  /** A sibling ends the section when it is a heading (`h2` to `h4`) or bold text longer than 20 characters. */
  predicate EndsSection(s: Sibling) {
    s.tag == H2 || s.tag == H3 || s.tag == H4 || ((s.tag == Strong || s.tag == B) && |s.text| > 20)
  }

  /** The non-empty texts of the siblings before the first one that ends the section. */
  function SectionLines(siblings: seq<Sibling>): (lines: seq<string>)
    ensures forall k :: 0 <= k < |lines| ==> lines[k] != ""
    ensures |lines| <= |siblings|
    decreases |siblings|
  {
    if siblings == [] || EndsSection(siblings[0]) then []
    else if siblings[0].lines == "" then SectionLines(siblings[1..])
    else [siblings[0].lines] + SectionLines(siblings[1..])
  }

  /** Every collected line is the text of a sibling that comes before any section end. */
  lemma {:induction false} SectionLinesFromSiblings(siblings: seq<Sibling>, k: nat)
    requires k < |SectionLines(siblings)|
    ensures exists i :: 0 <= i < |siblings| && SectionLines(siblings)[k] == siblings[i].lines
                        && forall j :: 0 <= j <= i ==> !EndsSection(siblings[j])
    decreases |siblings|
  {
    var rest := SectionLines(siblings[1..]);
    assert forall i :: 1 <= i < |siblings| ==> siblings[i] == siblings[1..][i - 1];
    if siblings[0].lines == "" {
      SectionLinesFromSiblings(siblings[1..], k);
      var i :| 0 <= i < |siblings[1..]| && rest[k] == siblings[1..][i].lines
               && forall j :: 0 <= j <= i ==> !EndsSection(siblings[1..][j]);
      assert SectionLines(siblings)[k] == siblings[i + 1].lines;
    } else if k > 0 {
      SectionLinesFromSiblings(siblings[1..], k - 1);
      var i :| 0 <= i < |siblings[1..]| && rest[k - 1] == siblings[1..][i].lines
               && forall j :: 0 <= j <= i ==> !EndsSection(siblings[1..][j]);
      assert SectionLines(siblings)[k] == siblings[i + 1].lines;
    }
  }

  /** Where the section stops: at the first sibling that ends it, or after the last sibling. */
  function SectionEnd(siblings: seq<Sibling>): (e: nat)
    ensures e <= |siblings|
    ensures forall j :: 0 <= j < e ==> !EndsSection(siblings[j])
    ensures e < |siblings| ==> EndsSection(siblings[e])
  {
    match FirstIndex(siblings, EndsSection)
    case None => |siblings|
    case Some(i) => i
  }

  /** The non-empty texts of `xs`, in order, built from the last sibling backwards. */
  function NonEmptyLines(xs: seq<Sibling>): seq<string>
    decreases |xs|
  {
    if xs == [] then []
    else NonEmptyLines(xs[..|xs| - 1]) + (if xs[|xs| - 1].lines == "" then [] else [xs[|xs| - 1].lines])
  }

  lemma {:induction false} NonEmptyLinesCons(x: Sibling, xs: seq<Sibling>)
    ensures NonEmptyLines([x] + xs) == (if x.lines == "" then [] else [x.lines]) + NonEmptyLines(xs)
    decreases |xs|
  {
    var ys := [x] + xs;
    if xs != [] {
      NonEmptyLinesCons(x, xs[..|xs| - 1]);
      assert ys[..|ys| - 1] == [x] + xs[..|xs| - 1];
      assert ys[|ys| - 1] == xs[|xs| - 1];
    } else {
      assert ys[..0] == [];
    }
  }

  /** Past a sibling that does not end the section, the end moves one place on. */
  lemma SectionEndStep(siblings: seq<Sibling>)
    requires siblings != [] && !EndsSection(siblings[0])
    ensures SectionEnd(siblings) == 1 + SectionEnd(siblings[1..])
  {
    var e := SectionEnd(siblings);
    var e' := SectionEnd(siblings[1..]);
    assert forall j :: 1 <= j < |siblings| ==> siblings[j] == siblings[1..][j - 1];
    if e' < |siblings[1..]| {
      assert EndsSection(siblings[1 + e']);
    }
    assert e <= 1 + e';
    if 0 < e < |siblings| {
      assert EndsSection(siblings[1..][e - 1]);
    }
  }

  /**
   * The collected lines are exactly the non-empty texts of the siblings before
   * the section end, in order: none is skipped and none is added.
   */
  lemma {:induction false} SectionLinesFiltered(siblings: seq<Sibling>)
    ensures SectionLines(siblings) == NonEmptyLines(siblings[..SectionEnd(siblings)])
    decreases |siblings|
  {
    if siblings == [] || EndsSection(siblings[0]) {
      assert siblings[..SectionEnd(siblings)] == [];
    } else {
      SectionLinesFiltered(siblings[1..]);
      SectionEndStep(siblings);
      var e' := SectionEnd(siblings[1..]);
      assert siblings[..1 + e'] == [siblings[0]] + siblings[1..][..e'];
      NonEmptyLinesCons(siblings[0], siblings[1..][..e']);
    }
  }

  /** The tags that may open a section: `h2` to `h4`, `strong` and `b`. */
  predicate IsSectionHeading(e: Element) {
    e.tag == H2 || e.tag == H3 || e.tag == H4 || e.tag == Strong || e.tag == B
  }

  /** Some pattern occurs in the text. */
  predicate MentionsAny(text: string, patterns: seq<string>) {
    exists k :: 0 <= k < |patterns| && Contains(text, patterns[k])
  }

  /** The heading opens a section: its lower-cased text names one of the patterns and it is followed by some text. */
  predicate OpensSection(e: Element, patterns: seq<string>) {
    IsSectionHeading(e) && MentionsAny(Lower(e.text), patterns) && SectionLines(e.siblings) != []
  }

  /** The section text: the collected lines of the first heading that opens a section, joined by newlines. */
  function SectionOf(elements: seq<Element>, patterns: seq<string>): Option<string> {
    match FirstIndex(elements, e => OpensSection(e, patterns))
    case None => None
    case Some(i) => Some(JoinWith(SectionLines(elements[i].siblings), '\n'))
  }

  /**
   * The heading loop with the sibling loop inside it: headings whose sections
   * come out empty are passed over.
   */
  method CollectSection(elements: seq<Element>, patterns: seq<string>) returns (section: Option<string>)
    ensures section == SectionOf(elements, patterns)
  {
    var h := 0;
    while h < |elements|
      invariant 0 <= h <= |elements|
      invariant forall j :: 0 <= j < h ==> !OpensSection(elements[j], patterns)
    {
      var heading := elements[h];
      if IsSectionHeading(heading) && MentionsAny(Lower(heading.text), patterns) {
        var content: seq<string> := [];
        var s := 0;
        while s < |heading.siblings|
          invariant 0 <= s <= |heading.siblings|
          invariant content + SectionLines(heading.siblings[s..]) == SectionLines(heading.siblings)
        {
          var sibling := heading.siblings[s];
          if EndsSection(sibling) {
            assert SectionLines(heading.siblings[s..]) == [];
            break;
          }
          assert heading.siblings[s..][1..] == heading.siblings[s + 1..];
          if sibling.lines != "" {
            content := content + [sibling.lines];
          }
          s := s + 1;
        }
        assert content == SectionLines(heading.siblings);
        if content != [] {
          assert OpensSection(heading, patterns);
          section := Some(JoinWith(content, '\n'));
          return;
        }
      }
      h := h + 1;
    }
    section := None;
  }
}

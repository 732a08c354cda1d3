/**
 * `get_job_details` (scraper.py:116-349, scraper_api.py:89-234): the field
 * resolvers put together into the returned record. The two scripts differ
 * only in the description selector list they try.
 */
module Detail {
  import opened Wrappers
  import opened Text
  import opened Page
  import opened Listing
  import opened Metadata
  import opened Sections
  import opened Application

  /**
   * Title and company from the `h1` text: cut at the first `" at "` when the
   * text holds one; otherwise the text is the title as it stands and the
   * company comes from the company link.
   */
  function TitleCompany(h1Text: Option<string>, companyLinkText: Option<string>): (Option<string>, Option<string>) {
    if Truthy(h1Text) then
      match SplitAtCompany(h1Text.value)
      case Some((title, company)) => (Some(title), Some(company))
      case None => (h1Text, companyLinkText)
    else (h1Text, companyLinkText)
  }

  /** Both branches of the title/company resolution. */
  lemma TitleCompanySpec(h1Text: Option<string>, companyLinkText: Option<string>)
    ensures h1Text.Some? && Contains(h1Text.value, AT) ==>
      exists i :: IsFirstOccurrence(h1Text.value, AT, i)
               && TitleCompany(h1Text, companyLinkText) == (Some(Strip(h1Text.value[..i])), Some(Strip(h1Text.value[i + |AT|..])))
    ensures !(h1Text.Some? && Contains(h1Text.value, AT)) ==> TitleCompany(h1Text, companyLinkText) == (h1Text, companyLinkText)
  {
    if h1Text.Some? {
      SplitAtCompanySpec(h1Text.value);
    }
  }

  /**
   * A heading the listing page cut into title and company is cut the same way
   * on the detail page, whatever the company link says.
   */
  lemma TitleCompanyAgreesWithListing(text: string, href: string, location: Option<string>, companyLinkText: Option<string>)
    requires Contains(text, AT)
    ensures var s := Summarize(Anchor(text, Some(href)), location);
            TitleCompany(Some(text), companyLinkText) == (Some(s.title), s.company)
  {
    SplitAtCompanySpec(text);
  }

  /**
   * The salary: the stripped capture of the salary pattern when that is
   * non-empty, else the `salary` entry of the details when there is one, else
   * whatever the capture gave (`None` or empty).
   */
  function ResolveSalary(salaryMatch: Option<string>, details: map<string, string>): (r: Option<string>)
    ensures salaryMatch.Some? && Strip(salaryMatch.value) != "" ==> r == Some(Strip(salaryMatch.value))
    ensures !(salaryMatch.Some? && Strip(salaryMatch.value) != "") && "salary" in details ==> r == Some(details["salary"])
    ensures salaryMatch.None? && "salary" !in details ==> r.None?
  {
    var salary := if salaryMatch.Some? then Some(Strip(salaryMatch.value)) else None;
    if !Truthy(salary) && "salary" in details then Some(details["salary"]) else salary
  }

  /** The details dictionary of a page: its key-info rows, then the two dates. */
  function DetailsOf(page: DetailPage): map<string, string> {
    WithDates(MetadataOf(page.keyInfo), page.postedParentText, page.deadlineParentText)
  }

  /** The record `get_job_details` returns for a page, with `descriptionSelectors` the list the script tries. */
  function JobDetailOf(page: DetailPage, descriptionSelectors: seq<string>): JobDetail {
    var names := TitleCompany(page.h1Text, page.companyLinkText);
    var details := DetailsOf(page);
    JobDetail(
      names.0, names.1,
      Lookup(details, "experience"), Lookup(details, "qualification"), Lookup(details, "job type"),
      Lookup(details, "location"), Lookup(details, "city"),
      ResolveSalary(page.salaryMatch, details),
      Lookup(details, "job field"), Lookup(details, "posted_date"), Lookup(details, "deadline_date"),
      FirstSelected(descriptionSelectors, page.sections),
      ApplicationMethod(page.elements, names.0, page.url))
  }

  /**
   * Reads one job page step by step as the source does: the row loop, the
   * two dates, the heading search, the selector loop and the salary.
   */
  method GetJobDetails(page: DetailPage, descriptionSelectors: seq<string>) returns (job: JobDetail)
    ensures job == JobDetailOf(page, descriptionSelectors)
  {
    var names := TitleCompany(page.h1Text, page.companyLinkText);
    var title, company := names.0, names.1;

    var details := BuildMetadata(page.keyInfo);
    if page.postedParentText.Some? {
      details := details["posted_date" := PostedDate(page.postedParentText.value)];
    }
    if page.deadlineParentText.Some? {
      details := details["deadline_date" := DeadlineDate(page.deadlineParentText.value)];
    }
    assert details == DetailsOf(page);

    var applicationMethod: Option<string> := None;
    var heading := LocateApplicationHeading(page.elements);
    if heading.Some? {
      var appDiv := NextDiv(page.elements[heading.value]);
      if appDiv.Some? {
        applicationMethod := MethodFromDiv(appDiv.value, title, page.url);
      }
    }
    assert applicationMethod == ApplicationMethod(page.elements, title, page.url);

    var description := SelectFirst(descriptionSelectors, page.sections);
    var salary := ResolveSalary(page.salaryMatch, details);

    job := JobDetail(
      title, company,
      Lookup(details, "experience"), Lookup(details, "qualification"), Lookup(details, "job type"),
      Lookup(details, "location"), Lookup(details, "city"), salary, Lookup(details, "job field"),
      Lookup(details, "posted_date"), Lookup(details, "deadline_date"),
      description, applicationMethod);
  }
}

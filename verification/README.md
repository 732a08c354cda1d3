# jobau job scraper — a verified model

jobau scrapes the "jobs posted today" listing of a Nigerian job board.
`scraper.py` walks every listing page and reads each job's detail page into
a record; `scraper_api.py` does the same with a bound on the number of jobs,
turns each record into the payload of a jobs API, posts it and counts
successes and failures. This project models that core in Dafny:

- `Listing` (listing.dfy): the listing walk of `get_today_jobs`. It has the
  page URLs, the `" at "` split of a heading into title and company, the
  skipping of items without a link, and the early return at `max_jobs`. The
  walk is a method with loops, proved equal to the summaries of all pages up
  to the first failed or empty page, truncated to the bound.
- `Page` (page.dfy): the parsed job page as a value. It holds the texts,
  attributes and pattern matches the resolvers read.
- `Metadata`, `Application`, `Sections` and `Detail` (metadata.dfy,
  application.dfy, sections.dfy, detail.dfy): the field resolvers of
  `get_job_details`. These are the key-info dictionary loop, the
  `Posted:`/`Deadline:` marker removal and the application-method priority
  chain. Also here are the first-matching-selector rule, the section
  collector and the salary fallback. The loops of the source are methods
  proved against functions; the overview's selector loop (scraper.py:246-250)
  shares the generic selector method `Sections.SelectFirst` with the
  description's.
- `Dates` (dates.dfy): `datetime.strptime` for the four deadline formats, as
  a backtracking matcher over the alternatives each directive accepts, and
  the re-emission as `YYYY-MM-DD`.
- `Payload` (payload.dfy): `map_job_to_api_format`. It covers skill tagging,
  the deadline, the location, salary cleaning and the constant fields.
- `Push` (push.dfy): `push_job_to_api`'s status classification and the
  success/failure counters of the API script's `main`.
- `Text` and `Wrappers` (text.dfy, wrappers.dfy): the Python string
  operations the scripts use (`strip`, `lower`, `in`, `find`, `replace`,
  `split`/`join`, `str(n)`), and `None`-or-value with Python truthiness.

The network is a parameter. The listing pages are a sequence of
`ListingPage` values; pages past its end count as failed fetches. The
detail page behind a link is `fetch(link)`, which is `None` where the
request raises. The API's answer to a payload is `server(payload)`.

## Behaviour worth noting

- The payload has no expiration fallback: a deadline that no format parses
  leaves `expiration_date` as `None` (scraper_api.py:257-271).
- `employment_type` is a copy of `Job Type` (scraper_api.py:300).
- Experience and salary have no default values; a missing one stays `None`
  (scraper_api.py:301, 305).
- The detail page is parsed whatever the status code of its response
  (scraper_api.py:91, scraper.py:118).
- The `Posted`/`Deadline` markers are removed case-sensitively
  (scraper.py:151, 157).

## Model

| member | source | states |
|---|---|---|
| Listing.GetTodayJobs | scraper_api.py:25-86 | The walk returns the summaries of all pages before the first failed or empty page, in page then item order, cut to the effective bound of `max_jobs`. A truthy positive bound is never exceeded. Unbounded, exactly the pages up to and including the stopping one are requested. |
| Listing.CollectPage | scraper_api.py:49-79 | The item loop of one page appends the summaries of the items it consumed. It stops exactly when the bound is reached, and otherwise consumes every item. |
| Listing.SplitAtCompanySpec | scraper.py:89-96 | A heading is cut exactly when it contains `" at "`, at its first occurrence, into the stripped parts before and after it. |
| Listing.SplitAtCompanyOfJoin | scraper.py:90-93 | For `a + " at " + b` with no earlier delimiter in `a`, title and company are `a` and `b` stripped; delimiters inside `b` stay in the company. |
| Listing.StopIndexSpec | scraper.py:67-78 | The walk stops at the first page that fails or lists nothing; every page before it was fetched and non-empty. |
| Listing.PageUrlInjective | scraper.py:61-64 | Page 1 is the today URL and page n is that URL plus `/n`, so distinct pages have distinct URLs. |
| Listing.SummariesLinks | scraper.py:99 | Every emitted link is the site's base URL followed by a non-empty `href`. |
| Listing.EmittedLinks | scraper.py:99 | The same holds for every summary of the first k pages. |
| Listing.SummariesFromItems | scraper.py:84-106 | Every emitted summary is the summary of some item of the page. |
| Listing.ItemsSummarized | scraper.py:84-106 | Every item with a title link that has an `href` has its summary emitted. |
| Listing.SummariesPrefix | scraper.py:80-106 | The summaries of the first j items are a prefix of the page's summaries, so item order is kept. |
| Listing.EmittedPrefix | scraper.py:59-110 | The summaries of the first k pages are a prefix of those of the first m ≥ k pages, so page order is kept. |
| Listing.PartialWalkIsPrefix | scraper_api.py:49-79 | What the walk holds part-way through a page is a prefix of everything the unbounded walk collects. |
| Listing.BoundReached | scraper_api.py:77-79 | Returning on reaching the bound leaves exactly the unbounded result cut to the bound. |
| Listing.WalkDone | scraper_api.py:38-47 | Leaving the loop at the stopping page below the bound leaves exactly the unbounded result. |
| Listing.TruncateOfPrefix | scraper_api.py:77-79 | A prefix of length c is what cutting the whole sequence to c leaves. |
| Page.FirstIndex | scraper.py:168-171 | The index found satisfies the predicate and none before it does; `None` means no element satisfies it. |
| Metadata.BuildMetadata | scraper.py:135-145 | The row loop builds the dictionary of the rows read in order, later rows overwriting earlier ones. |
| Metadata.MetadataKeysLower | scraper.py:143 | Every key of the dictionary is lower case. |
| Metadata.MetadataLastWins | scraper.py:140-145 | A key is present iff some row with both spans supplies it, and its value is that of the last such row. |
| Metadata.WithDatesSpec | scraper.py:148-158 | The posted and deadline entries are set only when their tag and parent exist; every other key keeps its row value. |
| Metadata.PostedDateOfMarked | scraper.py:150-152 | `"Posted: " + x` gives `x` stripped when `x` holds no marker. |
| Metadata.DeadlineDateOfMarked | scraper.py:156-158 | `"Deadline: " + x` gives `x` stripped when `x` holds no marker. |
| Metadata.UnmarkedDate | scraper.py:151 | A date text without markers is only stripped. |
| Application.LocateApplicationHeading | scraper.py:165-171 | The heading found is the first `h2` with id `application-method`, else the first `h2`/`h3` whose lower-cased text mentions "application". |
| Application.NoSectionNoMethod | scraper.py:173-177 | No application heading, or no div after it, gives no application method. |
| Application.LinkMethods | scraper.py:184-194 | An `http` link is used as it is. An `/apply-now/` link is appended to the base of the response address. |
| Application.ApplyNowLink | scraper_api.py:156-158 | On a page at `scheme://host/path`, an `/apply-now/` link becomes `scheme://host` followed by the link. |
| Application.BaseOf | scraper.py:193 | The scheme-and-host base of the response address is a prefix of that address. |
| Application.BaseOfSchemeHost | scraper.py:193 | For `scheme://host/path` the base is exactly `scheme://host`. |
| Application.BaseOfBareHost | scraper.py:193 | For `scheme://host` with no path the base is the whole address. |
| Application.MailMethods | scraper_api.py:159-190 | Any other link falls back to the e-mail, with the title as subject. Without a link, the e-mail is used with no subject. |
| Application.EmailOf | scraper.py:198-214 | The e-mail is the `strong` text when that contains `@`, else the first pattern match. |
| Application.Subject | scraper.py:204 | A truthy title gives the title with each space written `%20`; a missing or empty one gives `Job%20Application`. Either way the subject holds no space. |
| Application.SubjectDecodes | scraper.py:204 | A title without `%` is read back from its subject. |
| Application.MailToPrefix | scraper.py:205 | An application address is `mailto:` followed by the e-mail. |
| Sections.FirstSelected | scraper.py:246-250 | The text is that of the first selector in the list that matches, and `None` iff none matches. |
| Sections.SelectFirst | scraper.py:269-273 | The selector loop with its break yields the first matching selector's text. |
| Sections.FirstSelectedExtend | scraper.py:260-267 | Extra selectors after a matching one change nothing. |
| Sections.ApiDescriptionAgrees | scraper_api.py:195-205 | The API script's shorter selector list yields the same description whenever one of its selectors matches. |
| Sections.Overview | scraper.py:252-256 | A falsy overview falls back to the first paragraph of the details section, when that exists. |
| Sections.SectionLines | scraper.py:284-289 | Only non-empty texts are collected, at most one per sibling. |
| Sections.SectionLinesFromSiblings | scraper.py:284-289 | Each collected line is the text of a sibling with no section end at or before it. |
| Sections.SectionEnd | scraper.py:284-286 | The section stops at the first sibling that ends it, or after the last sibling: no sibling before it ends the section. |
| Sections.SectionLinesFiltered | scraper.py:284-289 | The collected lines are exactly the non-empty texts of the siblings before the section end, in sibling order. |
| Sections.CollectSection | scraper.py:279-293 | The section is that of the first matching heading whose collected lines are non-empty, joined by newlines. |
| Detail.TitleCompanySpec | scraper.py:125-132 | A heading containing `" at "` is cut at its first occurrence. Otherwise the heading is the title and the company comes from the company link. |
| Detail.TitleCompanyAgreesWithListing | scraper.py:125-128 | The detail page cuts a heading into the same title and company as the listing page. |
| Detail.ResolveSalary | scraper.py:321-326 | A non-empty stripped capture wins, else the `salary` detail when present. Without either the salary is `None`. |
| Detail.GetJobDetails | scraper_api.py:89-234 | The record returned is the title/company split and the detail lookups. It also holds the salary, the first matching description and the application method. |
| Dates.Strptime | scraper_api.py:265 | A successful parse is a real date: years 1 to 9999, and a day that exists in its month. |
| Dates.FirstParse | scraper_api.py:263-268 | A result is the parse of some format that no earlier format parsed: the first format that parses wins. `None` means every format failed. |
| Dates.FirstParseAt | scraper_api.py:263-268 | When format k parses and no earlier one does, format k gives the date. |
| Dates.ParseDeadline | scraper_api.py:257-271 | The loop over formats with its break yields the expiration date: `None` for a falsy deadline or when no format parses. |
| Dates.ExpirationDateShape | scraper_api.py:266 | An expiration date is always a real date written `YYYY-MM-DD`. |
| Dates.IsoRoundTrip | scraper_api.py:263-266 | A date written `YYYY-MM-DD` maps to itself. |
| Dates.IsoParsesFormatIso | scraper_api.py:265-266 | `%Y-%m-%d` reads back the date that `strftime` wrote. |
| Dates.LongMonthFirstRejectsDigit | scraper_api.py:263 | A text starting with a digit is not parsed by `%B %d, %Y`. |
| Dates.LongDayFirstNeedsSpace | scraper_api.py:263 | `%d %B %Y` fails on a text whose second and third characters are not whitespace. |
| Dates.LongMonthFirstNeedsName | scraper_api.py:263 | `%B %d, %Y` fails on a text whose first letter, in lower case, starts no month name short enough to fit. |
| Dates.NumericFormatsNeedDigit | scraper_api.py:263 | `%d %B %Y`, `%Y-%m-%d` and `%d/%m/%Y` fail on a text starting with neither a digit nor a space. |
| Dates.NoFormatNoExpiration | scraper_api.py:263-269 | When no format parses a deadline, it has no expiration date. |
| Dates.WordDeadlineNoExpiration | scraper_api.py:258-269 | A deadline starting with a letter that begins no month name that fits has no expiration date. |
| Dates.ExpirationDateAt | scraper_api.py:263-266 | When format k parses the deadline and no earlier format does, the expiration date is that date written `YYYY-MM-DD`. |
| Dates.MonthNameAltsUnique | scraper_api.py:263 | A month name read at a position is the only one that matches there. |
| Dates.LongMonthFirstParses | scraper_api.py:263-265 | `%B %d, %Y` reads back any valid date written with a month name in any letter case, the day and a four-digit year. |
| Dates.LongDayFirstParses | scraper_api.py:263-265 | `%d %B %Y` reads back any valid date written with the day, a month name in any letter case and a four-digit year. |
| Dates.SlashedParses | scraper_api.py:263-265 | `%d/%m/%Y` reads back any valid date written with a zero-padded day and month. |
| Dates.LongMonthFirstRoundTrip | scraper_api.py:258-266 | A valid date written `Month D, YYYY` gives that date as `YYYY-MM-DD`. |
| Dates.LongDayFirstRoundTrip | scraper_api.py:258-266 | A valid date written `D Month YYYY` gives that date as `YYYY-MM-DD`. |
| Dates.SlashedRoundTrip | scraper_api.py:258-266 | A valid date written `DD/MM/YYYY` is read day first and gives that date as `YYYY-MM-DD`; no earlier format reads it. |
| Dates.LongMonthFirstExample | scraper_api.py:263-266 | "January 5, 2025" gives "2025-01-05". |
| Dates.LongDayFirstExample | scraper_api.py:263-266 | "5 January 2025" gives "2025-01-05". |
| Dates.SlashedExample | scraper_api.py:263-266 | "05/01/2025" is day first and gives "2025-01-05". |
| Dates.InvalidDateExample | scraper_api.py:263-269 | "2025-02-29" has the ISO shape, but no format parses it, so there is no expiration date. |
| Dates.AsapExample | scraper_api.py:258-269 | A deadline such as "ASAP" matches no format, so there is no expiration date. |
| Payload.TagSkills | scraper_api.py:244-253 | The tagging loop yields exactly the vocabulary entries the text mentions. |
| Payload.MatchedSkillsInVocabularyOrder | scraper_api.py:251-253 | The tagged skills are picked from the vocabulary at strictly increasing positions. |
| Payload.TaggedSkillIsMentioned | scraper_api.py:252 | Every tagged skill is in the vocabulary and is mentioned by the text, ignoring case. |
| Payload.MentionedSkillIsTagged | scraper_api.py:252-253 | Every vocabulary skill the text mentions is tagged. |
| Payload.ContainedSkillTagged | scraper_api.py:252 | When a tagged skill's lower-cased name contains another vocabulary entry's, that entry is tagged too. |
| Payload.JavaScriptTagsJava | scraper_api.py:247-253 | A text mentioning JavaScript also tags Java. |
| Payload.SkillsField | scraper_api.py:303 | The skills field has 1 to 5 entries: the first five tagged, or `["General"]` when none is tagged. |
| Payload.ComposeLocationCases | scraper_api.py:274-275 | The location is city and state joined by `", "`, with missing or empty parts left out. It is "Nigeria" when both are left out. |
| Payload.ComposeLocation | scraper_api.py:275 | The location is never empty. |
| Payload.RemoveNoise | scraper_api.py:283 | No `₦`, `N` or `,` survives cleaning. |
| Payload.RemoveNoiseChar | scraper_api.py:283 | A single `₦`, `N` or `,` is dropped; any other character is kept. |
| Payload.RemoveNoiseAppend | scraper_api.py:283 | Cleaning works piece by piece, so every other character is kept, in its order. |
| Payload.RemoveNoiseExample | scraper_api.py:283 | "₦150,000" becomes "150000". |
| Payload.CleanSalaryClean | scraper_api.py:278-288 | The salary is `None` iff the raw salary is falsy. Otherwise it is free of `₦`, `N` and `,` and has no outer whitespace. |
| Payload.CleanSalaryIdempotent | scraper_api.py:283-288 | Cleaning a non-empty cleaned salary again changes nothing. |
| Payload.MapJobToApiFormat | scraper_api.py:240-308 | The mapper builds the payload from the job record, tagging skills and parsing the deadline with their loops. |
| Payload.ApiPayloadProperties | scraper_api.py:290-308 | The payload's skills are bounded and tagged or default, and the expiration date is a real date written `YYYY-MM-DD`. The location is non-empty and the salary is noise-free. Description, overview and responsibilities are equal, employment type and experience level copy the job type and experience, and currency, pay schedule and benefits are the constants `NGN`, `Monthly` and `Not specified`. |
| Push.AcceptedStatuses | scraper_api.py:323-333 | A push succeeds iff the API answers 200 or 201; an exception is a failure. |
| Push.PushJobToApi | scraper_api.py:311-333 | The push reports success iff the server's answer to the mapped payload is accepted. |
| Push.ProcessJobs | scraper_api.py:351-369 | The loop counts as successes exactly the jobs whose page was fetched and whose push was accepted; successes plus failures equal the number of jobs. |
| Push.CountPostedAppend | scraper_api.py:354-363 | Success counts add up over consecutive runs of jobs. |
| Push.AllPosted | scraper_api.py:360-361 | When every push succeeds, every job counts as a success. |
| Push.OnlyAllPosted | scraper_api.py:360-363 | All jobs counting as successes means each one was posted. |
| Push.NonePosted | scraper_api.py:362-369 | When no push succeeds, there are no successes. |
| Push.NothingPostedWithout | scraper_api.py:356-369 | A job whose page cannot be fetched, or a server that accepts nothing, gives a failure. |
| Push.RunApiScraper | scraper_api.py:339-377 | The API script's main processes today's first job at most, and accounts for every processed job as a success or a failure. |
| Text.StripSpec | scraper.py:92-93 | Strip leaves no outer whitespace, removes only whitespace from the two ends, and leaves stripped text unchanged. |
| Text.StripIdempotent | scraper.py:92-93 | Stripping twice is stripping once. |
| Text.Lower | scraper.py:143 | Lower-casing keeps the length, maps each ASCII capital to its small letter, and keeps every other character. |
| Text.LowerIdempotent | scraper.py:143 | Lower-casing twice is lower-casing once. |
| Text.Find | scraper.py:90-91 | The position found is the first occurrence; `None` means no occurrence. |
| Text.ContainsTransitive | scraper_api.py:252 | A text containing `a` contains everything `a` contains. |
| Text.RemoveAllAbsent | scraper.py:151 | Removing an absent pattern leaves the text unchanged. |
| Text.EncodeSpacesRoundTrip | scraper.py:204 | For text without `%`, the `%20` encoding decodes back to the text. |
| Text.JoinSplit | scraper.py:193 | Joining the parts of a split with the same separator gives back the text. |
| Text.JoinPrefix | scraper.py:193 | Joining the first k parts gives a prefix of joining them all. |
| Text.DecimalRoundTrip | scraper.py:64 | The decimal digits of a page number read back as that number. |
| Text.NatToDecimalInjective | scraper.py:64 | Distinct page numbers have distinct decimal texts. |

## Left out

- HTTP fetching, posting and HTML parsing: listing pages, detail pages and the API's answers are inputs (a sequence of pages, and the `fetch` and `server` parameters). Texts are already what the parser's text extraction gives.
- The e-mail and salary regular-expression searches are inputs of the page record, as their first match or `None`; no regular-expression engine is modelled.
- Google Sheets authentication and writing, the sheet-writing `main` of scraper.py, and automate.py and daily_visit.py: network and spreadsheet I/O with no decision logic.
- `time.sleep` delays and all printed output.
- The overview, responsibilities and requirements of scraper.py are modelled (`Sections.Overview`, `Sections.CollectSection`), but `get_job_details` computes them without returning them, so they are not part of the record.
- Listing.GetTodayJobs: the site is given as a finite sequence of pages, and asking for a page past its end counts as a failed request. The model therefore cannot express a site whose pages never run out, where the source would loop forever.
- Listing.GetTodayJobs: the list of requested URLs is kept only as the number of pages requested (`fetched`); `Listing.PageUrl` gives the URL of each.
- Text.Lower: case mapping is ASCII only. Python's `lower()` and case-insensitive matching also fold non-ASCII letters (such as the Kelvin sign, whose lower case is `k`).
- Dates.Strptime: `\d` in `strptime`'s patterns is modelled as ASCII digits only, where Python's also accepts other Unicode decimal digits.
- Dates.FormatIso: the year is written with four digits. Platforms whose `strftime` does not zero-pad years below 1000 write them shorter.
- Push.ProcessJobs: a fetch that raises is the only failure modelled before the push. The mapper cannot raise in the model, while the source would count any exception there as a failure too.
- Exceptions other than a failed request are not modelled; a detail page is always read, whatever its status code.

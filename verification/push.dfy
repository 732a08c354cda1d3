/**
 * `push_job_to_api` (scraper_api.py:311-333) and the driver loop of `main`
 * (scraper_api.py:339-377): each summary job's page is fetched and read, its
 * payload posted, and the outcome counted as a success or a failure.
 *
 * The network is a parameter: `fetch` gives the page behind a link, or
 * `None` where the request raises; `server` gives the API's answer to a
 * payload, a status code or an exception.
 */
module Push {
  import opened Wrappers
  import opened Page
  import opened Listing
  import opened Sections
  import opened Detail
  import opened Payload

  /** The outcome of the POST: a status code, or an exception (connection error, timeout). */
  datatype PostOutcome = Responded(status: int) | Raised

  /** The status codes that count as posted. */
  const ACCEPTED_STATUSES: seq<int> := [200, 201]

  /** `push_job_to_api`'s verdict on the outcome of its POST. */
  predicate Accepted(outcome: PostOutcome) {
    outcome.Responded? && outcome.status in ACCEPTED_STATUSES
  }

  /** Only a 200 or a 201 response counts; an exception or any other status, 2xx or not, is a failure. */
  lemma AcceptedStatuses(outcome: PostOutcome)
    ensures outcome.Raised? ==> !Accepted(outcome)
    ensures outcome.Responded? ==> (Accepted(outcome) <==> outcome.status == 200 || outcome.status == 201)
  {
  }

  /** Builds the payload of a job record, posts it, and reports whether it was accepted. */
  method PushJobToApi(job: JobDetail, server: ApiPayload -> PostOutcome) returns (posted: bool)
    ensures posted <==> Accepted(server(ApiPayloadOf(job)))
  {
    var payload := MapJobToApiFormat(job);
    var outcome := server(payload);
    posted := Accepted(outcome);
  }

  /** Whether one summary job ends up posted: its page fetched, read and accepted. */
  predicate JobPosted(job: JobSummary, fetch: string -> Option<DetailPage>, server: ApiPayload -> PostOutcome) {
    match fetch(job.link)
    case None => false
    case Some(page) => Accepted(server(ApiPayloadOf(JobDetailOf(page, API_DESCRIPTION_SELECTORS))))
  }

  /** How many of `jobs` satisfy `posted`. */
  function CountPosted(jobs: seq<JobSummary>, posted: JobSummary -> bool): (n: nat)
    ensures n <= |jobs|
    decreases |jobs|
  {
    if jobs == [] then 0
    else
      var n := |jobs| - 1;
      CountPosted(jobs[..n], posted) + (if posted(jobs[n]) then 1 else 0)
  }

  lemma CountPostedStep(jobs: seq<JobSummary>, i: nat, posted: JobSummary -> bool)
    requires i < |jobs|
    ensures CountPosted(jobs[..i + 1], posted) == CountPosted(jobs[..i], posted) + (if posted(jobs[i]) then 1 else 0)
  {
    assert jobs[..i + 1][..i] == jobs[..i];
  }

  /**
   * The loop of `main`: every job is counted once, as a success when its
   * push was accepted and as a failure when the push was refused or the page
   * could not be fetched.
   */
  method ProcessJobs(jobs: seq<JobSummary>, fetch: string -> Option<DetailPage>, server: ApiPayload -> PostOutcome)
    returns (successful: nat, failed: nat)
    ensures successful == CountPosted(jobs, job => JobPosted(job, fetch, server))
    ensures successful + failed == |jobs|
  {
    ghost var posted := job => JobPosted(job, fetch, server);
    successful, failed := 0, 0;
    for i := 0 to |jobs|
      invariant successful == CountPosted(jobs[..i], posted)
      invariant successful + failed == i
    {
      CountPostedStep(jobs, i, posted);
      var job := jobs[i];
      var page := fetch(job.link);
      if page.None? {
        failed := failed + 1;
      } else {
        var details := GetJobDetails(page.value, API_DESCRIPTION_SELECTORS);
        var accepted := PushJobToApi(details, server);
        if accepted {
          successful := successful + 1;
        } else {
          failed := failed + 1;
        }
      }
    }
    assert jobs[..|jobs|] == jobs;
  }

  /** The count over a concatenation is the sum of the counts. */
  lemma {:induction false} CountPostedAppend(a: seq<JobSummary>, b: seq<JobSummary>, posted: JobSummary -> bool)
    ensures CountPosted(a + b, posted) == CountPosted(a, posted) + CountPosted(b, posted)
    decreases |b|
  {
    if b == [] {
      assert a + b == a;
    } else {
      var n := |b| - 1;
      CountPostedAppend(a, b[..n], posted);
      assert (a + b)[..|a + b| - 1] == a + b[..n];
      assert (a + b)[|a + b| - 1] == b[n];
    }
  }

  /** When every job is posted, the count is the number of jobs. */
  lemma {:induction false} AllPosted(jobs: seq<JobSummary>, posted: JobSummary -> bool)
    requires forall k :: 0 <= k < |jobs| ==> posted(jobs[k])
    ensures CountPosted(jobs, posted) == |jobs|
    decreases |jobs|
  {
    if jobs != [] {
      var n := |jobs| - 1;
      assert forall k :: 0 <= k < n ==> jobs[..n][k] == jobs[k];
      AllPosted(jobs[..n], posted);
    }
  }

  /** When the count is the number of jobs, each job was posted. */
  lemma {:induction false} OnlyAllPosted(jobs: seq<JobSummary>, posted: JobSummary -> bool, k: nat)
    requires k < |jobs| && CountPosted(jobs, posted) == |jobs|
    ensures posted(jobs[k])
    decreases |jobs|
  {
    var n := |jobs| - 1;
    if k < n {
      assert jobs[..n][k] == jobs[k];
      OnlyAllPosted(jobs[..n], posted, k);
    }
  }

  /** When no job is posted, the count is zero. */
  lemma {:induction false} NonePosted(jobs: seq<JobSummary>, posted: JobSummary -> bool)
    requires forall k :: 0 <= k < |jobs| ==> !posted(jobs[k])
    ensures CountPosted(jobs, posted) == 0
    decreases |jobs|
  {
    if jobs != [] {
      var n := |jobs| - 1;
      assert forall k :: 0 <= k < n ==> jobs[..n][k] == jobs[k];
      NonePosted(jobs[..n], posted);
    }
  }

  /** A server that refuses every payload, or pages that can never be fetched, leave nothing posted. */
  lemma NothingPostedWithout(job: JobSummary, fetch: string -> Option<DetailPage>, server: ApiPayload -> PostOutcome)
    ensures (forall p :: !Accepted(server(p))) ==> !JobPosted(job, fetch, server)
    ensures fetch(job.link).None? ==> !JobPosted(job, fetch, server)
  {
  }

  /** The number of summary jobs the API script asks for. */
  const API_MAX_JOBS: int := 1

  /**
   * `main` of the API script: today's summaries capped at one job, an early
   * exit when there are none, then the push loop with its two counters.
   */
  method RunApiScraper(pages: seq<ListingPage>, fetch: string -> Option<DetailPage>, server: ApiPayload -> PostOutcome)
    returns (summaries: seq<JobSummary>, successful: nat, failed: nat)
    ensures summaries == Truncate(AllSummaries(pages), Some(1))
    ensures |summaries| <= 1
    ensures successful + failed == |summaries|
    ensures successful == CountPosted(summaries, job => JobPosted(job, fetch, server))
  {
    var fetched;
    summaries, fetched := GetTodayJobs(pages, Some(API_MAX_JOBS));
    successful, failed := 0, 0;
    if summaries == [] {
      return;
    }
    successful, failed := ProcessJobs(summaries, fetch, server);
  }
}

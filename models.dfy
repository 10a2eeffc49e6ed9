/** The value records exchanged by the core: a parsed résumé, a job posting,
    a search request and a match score. */
module Models {
  import opened Wrappers

  /** A parsed résumé. `experience` and `education` hold the `description`
      text of each entry; `rawText` is the full extracted text. */
  datatype ResumeData = ResumeData(
    name: Option<string>,
    email: Option<string>,
    phone: Option<string>,
    skills: seq<string>,
    experience: seq<string>,
    education: seq<string>,
    summary: Option<string>,
    rawText: string)

  /** A job posting; `url` is the key postings from several sources are
      de-duplicated on. `postedDate` keeps the date as its text. */
  datatype JobPosting = JobPosting(
    id: string,
    title: string,
    company: string,
    location: Option<string>,
    description: string,
    url: string,
    source: string,
    postedDate: Option<string>,
    salary: Option<string>,
    jobType: Option<string>)

  /** A search over the named sources. The request model admits only
      `1 <= maxResults <= 100` (see `ValidRequest`). */
  datatype JobSearchRequest = JobSearchRequest(
    keyword: string,
    location: Option<string>,
    maxResults: int,
    sources: seq<string>)

  predicate ValidRequest(request: JobSearchRequest)
  {
    1 <= request.maxResults <= 100
  }

  /** Building a request validates it: the request model refuses a
      `maxResults` outside 1..100 and keeps the given fields otherwise. */
  function NewRequest(keyword: string, location: Option<string>, maxResults: int, sources: seq<string>): (r: Option<JobSearchRequest>)
    ensures r.Some? <==> 1 <= maxResults <= 100
    ensures r.Some? ==> ValidRequest(r.value)
    ensures r.Some? ==>
      && r.value.keyword == keyword && r.value.location == location
      && r.value.maxResults == maxResults && r.value.sources == sources
  {
    var request := JobSearchRequest(keyword, location, maxResults, sources);
    if ValidRequest(request) then Some(request) else None
  }

  /** One piece of advice. The source emits a fixed message per kind; the
      keyword advice names the keywords it suggests. */
  datatype Recommendation =
    | AddKeywords(keywords: seq<string>)
    | AddMoreSkills
    | AddExperienceSection
    | AddSummarySection
    | GoodFit

  /** The result of matching one résumé against one posting. */
  datatype MatchScore = MatchScore(
    overallScore: real,
    skillsMatch: real,
    experienceMatch: real,
    educationMatch: real,
    descriptionMatch: real,
    matchedKeywords: seq<string>,
    missingKeywords: seq<string>,
    recommendations: seq<Recommendation>)
}

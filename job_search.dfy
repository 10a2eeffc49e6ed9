/** The job search service: queries the named sources, pools their postings
    in source order, drops postings whose URL was already seen, and keeps at
    most the requested number. */
module JobSearch {
  import opened Seqs
  import opened Models

  /** What one source's search yielded: its postings, or the exception it
      raised (which is logged and otherwise ignored). */
  datatype SourceOutcome = Listed(postings: seq<JobPosting>) | Raised(message: string)

  /** The outcomes of the sources the request names, LinkedIn first. */
  function Queried(request: JobSearchRequest, linkedin: SourceOutcome, indeed: SourceOutcome): (r: seq<SourceOutcome>)
    ensures |r| == (if "linkedin" in request.sources then 1 else 0) + (if "indeed" in request.sources then 1 else 0)
    ensures "linkedin" in request.sources ==> r[0] == linkedin
    ensures "indeed" in request.sources ==> r[|r| - 1] == indeed
  {
    (if "linkedin" in request.sources then [linkedin] else [])
    + (if "indeed" in request.sources then [indeed] else [])
  }

  /** The postings of the listed outcomes, in order. */
  function Pooled(outcomes: seq<SourceOutcome>): seq<JobPosting>
  {
    if outcomes == [] then []
    else
      var init, last := outcomes[..|outcomes| - 1], outcomes[|outcomes| - 1];
      Pooled(init) + (if last.Listed? then last.postings else [])
  }

  /** Pooling distributes over concatenation. */
  lemma {:induction false} PooledAppend(a: seq<SourceOutcome>, b: seq<SourceOutcome>)
    ensures Pooled(a + b) == Pooled(a) + Pooled(b)
    decreases |b|
  {
    if b == [] {
      assert a + b == a;
    } else {
      var init := b[..|b| - 1];
      assert (a + b)[..|a + b| - 1] == a + init;
      assert (a + b)[|a + b| - 1] == b[|b| - 1];
      PooledAppend(a, init);
    }
  }

  /** The pool: LinkedIn's postings when it is named, then Indeed's when it
      is named, a source that raised contributing none. */
  lemma PooledNamedSources(request: JobSearchRequest, linkedin: SourceOutcome, indeed: SourceOutcome)
    ensures Pooled(Queried(request, linkedin, indeed)) ==
      (if "linkedin" in request.sources && linkedin.Listed? then linkedin.postings else [])
      + (if "indeed" in request.sources && indeed.Listed? then indeed.postings else [])
  {
    var a := if "linkedin" in request.sources then [linkedin] else [];
    var b := if "indeed" in request.sources then [indeed] else [];
    PooledAppend(a, b);
    assert Pooled([linkedin]) == Pooled([]) + (if linkedin.Listed? then linkedin.postings else []);
    assert Pooled([indeed]) == Pooled([]) + (if indeed.Listed? then indeed.postings else []);
  }

  function Urls(jobs: seq<JobPosting>): set<string>
  {
    set j | j in jobs :: j.url
  }

  /** The postings whose URL does not occur earlier in `jobs`, in order. */
  function FirstOccurrences(jobs: seq<JobPosting>): seq<JobPosting>
  {
    if jobs == [] then []
    else
      var init, last := jobs[..|jobs| - 1], jobs[|jobs| - 1];
      if last.url in Urls(init) then FirstOccurrences(init) else FirstOccurrences(init) + [last]
  }

  /** No two postings share a URL. */
  ghost predicate DistinctUrls(jobs: seq<JobPosting>)
  {
    forall i, j :: 0 <= i < j < |jobs| ==> jobs[i].url != jobs[j].url
  }

  /** Posting `j` is the first with its URL. */
  ghost predicate IsFirst(jobs: seq<JobPosting>, j: int)
  {
    0 <= j < |jobs| && forall i :: 0 <= i < j ==> jobs[i].url != jobs[j].url
  }

  lemma UrlsSnoc(jobs: seq<JobPosting>, x: JobPosting)
    ensures Urls(jobs + [x]) == Urls(jobs) + {x.url}
  {
    assert forall j :: j in jobs + [x] <==> j in jobs || j == x;
  }

  /** De-duplication keeps the postings in order. */
  lemma {:induction false} FirstOccurrencesInOrder(jobs: seq<JobPosting>)
    ensures Subseq(FirstOccurrences(jobs), jobs)
  {
    if jobs != [] {
      var init, last := jobs[..|jobs| - 1], jobs[|jobs| - 1];
      assert jobs == init + [last];
      FirstOccurrencesInOrder(init);
      SubseqSnoc(FirstOccurrences(init), init, last);
    }
  }

  /** De-duplication keeps each URL of the input exactly once. */
  lemma {:induction false} FirstOccurrencesUrls(jobs: seq<JobPosting>)
    ensures DistinctUrls(FirstOccurrences(jobs))
    ensures Urls(FirstOccurrences(jobs)) == Urls(jobs)
  {
    if jobs != [] {
      var init, last := jobs[..|jobs| - 1], jobs[|jobs| - 1];
      assert jobs == init + [last];
      FirstOccurrencesUrls(init);
      var kept := FirstOccurrences(init);
      UrlsSnoc(init, last);
      if last.url !in Urls(init) {
        UrlsSnoc(kept, last);
        forall i | 0 <= i < |kept| ensures kept[i].url != last.url {
          assert kept[i] in kept;
        }
      }
    }
  }

  /** For each URL, the posting kept is the first one that has it. */
  lemma {:induction false} FirstOccurrencesKeepFirst(jobs: seq<JobPosting>)
    ensures forall j :: IsFirst(jobs, j) ==> jobs[j] in FirstOccurrences(jobs)
  {
    if jobs != [] {
      var init, last := jobs[..|jobs| - 1], jobs[|jobs| - 1];
      FirstOccurrencesKeepFirst(init);
      forall j | IsFirst(jobs, j) ensures jobs[j] in FirstOccurrences(jobs) {
        if j < |init| {
          assert IsFirst(init, j);
        } else {
          assert forall i :: 0 <= i < |init| ==> init[i].url != last.url by {
            forall i | 0 <= i < |init| ensures init[i].url != last.url {
              assert jobs[i] == init[i];
            }
          }
        }
      }
    }
  }

  /** The de-duplicated and cut pool: in pool order, no URL twice, no more
      than the limit, and every URL of the pool when the cut is not reached. */
  lemma DeduplicatedSpec(pool: seq<JobPosting>, maxResults: int)
    requires maxResults >= 0
    ensures var jobs := PyPrefix(FirstOccurrences(pool), maxResults);
      && |jobs| <= maxResults
      && Subseq(jobs, pool)
      && DistinctUrls(jobs)
      && (|FirstOccurrences(pool)| <= maxResults ==> Urls(jobs) == Urls(pool))
  {
    var unique := FirstOccurrences(pool);
    FirstOccurrencesInOrder(pool);
    FirstOccurrencesUrls(pool);
    var jobs := PyPrefix(unique, maxResults);
    assert jobs == unique[..|jobs|];
    SubseqPrefix(unique, pool, |jobs|);
  }

  /** The de-duplication loop and the final cut of `search_jobs`. */
  method Deduplicate(allJobs: seq<JobPosting>, maxResults: int) returns (jobs: seq<JobPosting>)
    ensures jobs == PyPrefix(FirstOccurrences(allJobs), maxResults)
  {
    var seenUrls: set<string> := {};
    var uniqueJobs: seq<JobPosting> := [];
    for i := 0 to |allJobs|
      invariant seenUrls == Urls(allJobs[..i])
      invariant uniqueJobs == FirstOccurrences(allJobs[..i])
    {
      assert allJobs[..i + 1][..i] == allJobs[..i];
      UrlsSnoc(allJobs[..i], allJobs[i]);
      assert allJobs[..i + 1] == allJobs[..i] + [allJobs[i]];
      if allJobs[i].url !in seenUrls {
        seenUrls := seenUrls + {allJobs[i].url};
        uniqueJobs := uniqueJobs + [allJobs[i]];
      }
    }
    assert allJobs[..|allJobs|] == allJobs;
    jobs := PyPrefix(uniqueJobs, maxResults);
  }

  /** The postings the search returns for these source outcomes. */
  function Searched(request: JobSearchRequest, linkedin: SourceOutcome, indeed: SourceOutcome): seq<JobPosting>
  {
    PyPrefix(FirstOccurrences(Pooled(Queried(request, linkedin, indeed))), request.maxResults)
  }

  /** `search_jobs`, given what each source's search yields for the
      request's keyword, location and limit. */
  method SearchJobs(request: JobSearchRequest, linkedin: SourceOutcome, indeed: SourceOutcome) returns (jobs: seq<JobPosting>)
    ensures jobs == Searched(request, linkedin, indeed)
  {
    var allJobs: seq<JobPosting> := [];
    var results: seq<SourceOutcome> := [];
    if "linkedin" in request.sources {
      results := results + [linkedin];
    }
    if "indeed" in request.sources {
      results := results + [indeed];
    }
    for i := 0 to |results|
      invariant allJobs == Pooled(results[..i])
    {
      assert results[..i + 1][..i] == results[..i];
      if results[i].Listed? {
        allJobs := allJobs + results[i].postings;
      }
    }
    assert results[..|results|] == results;
    jobs := Deduplicate(allJobs, request.maxResults);
  }

  /** What a search returns: postings from the pool, in pool order, no URL
      twice, at most `maxResults` of them; and when the cut is not reached,
      every URL of the pool. */
  lemma SearchedSpec(request: JobSearchRequest, linkedin: SourceOutcome, indeed: SourceOutcome)
    requires ValidRequest(request)
    ensures var pool := Pooled(Queried(request, linkedin, indeed));
      var jobs := Searched(request, linkedin, indeed);
      && |jobs| <= request.maxResults
      && Subseq(jobs, pool)
      && DistinctUrls(jobs)
      && (|FirstOccurrences(pool)| <= request.maxResults ==> Urls(jobs) == Urls(pool))
  {
    DeduplicatedSpec(Pooled(Queried(request, linkedin, indeed)), request.maxResults);
  }

  /** With no known source named, nothing is searched. */
  lemma NoSourcesNoJobs(request: JobSearchRequest, linkedin: SourceOutcome, indeed: SourceOutcome)
    requires "linkedin" !in request.sources && "indeed" !in request.sources
    ensures Searched(request, linkedin, indeed) == []
  {
  }

  /** A source that raised adds nothing: the search returns what it would
      have returned had that source listed no postings. */
  lemma FailedSourceIgnored(request: JobSearchRequest, message: string, other: SourceOutcome)
    ensures Searched(request, Raised(message), other) == Searched(request, Listed([]), other)
    ensures Searched(request, other, Raised(message)) == Searched(request, other, Listed([]))
  {
    var a, b := Queried(request, Raised(message), other), Queried(request, Listed([]), other);
    assert |a| == |b|;
    RaisedLikeEmpty(a, b);
    var c, d := Queried(request, other, Raised(message)), Queried(request, other, Listed([]));
    assert |c| == |d|;
    RaisedLikeEmpty(c, d);
  }

  /** Outcomes that differ only in raising versus listing nothing pool alike. */
  lemma {:induction false} RaisedLikeEmpty(a: seq<SourceOutcome>, b: seq<SourceOutcome>)
    requires |a| == |b|
    requires forall i :: 0 <= i < |a| ==> a[i] == b[i] || (a[i].Raised? && b[i] == Listed([]))
    ensures Pooled(a) == Pooled(b)
  {
    if a != [] {
      RaisedLikeEmpty(a[..|a| - 1], b[..|b| - 1]);
    }
  }
}

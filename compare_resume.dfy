/** The résumé comparison script: loads saved postings, scores every posting
    against one résumé, ranks them by overall score and keeps the best, and
    colours a score for the report. */
module CompareResume {
  import opened Wrappers
  import opened Seqs
  import opened Models
  import opened Matching

  // --------------------------------------------------------------- ranking

  /** One result row: the posting, its match, and the match's overall score
      (the sort key). */
  datatype RankedMatch = RankedMatch(job: JobPosting, score: MatchScore, overallScore: real)

  /** The overall score any match of `resume` against `job` has. */
  function OverallFor(resume: ResumeData, job: JobPosting): real
  {
    OverallScore(SkillsScore(resume, job), ExperienceScore(resume, job), EducationScore(resume, job), DescriptionScore(resume, job))
  }

  /** `row` is `job` with a match for it. */
  ghost predicate RowFor(resume: ResumeData, job: JobPosting, row: RankedMatch)
  {
    row.job == job && IsMatchFor(resume, job, row.score) && row.overallScore == row.score.overallScore
  }

  /** `scored` pairs each posting, in order, with a match for it. */
  ghost predicate ScoredFor(resume: ResumeData, jobs: seq<JobPosting>, scored: seq<RankedMatch>)
    decreases |jobs|
  {
    && |scored| == |jobs|
    && (|jobs| > 0 ==>
      && ScoredFor(resume, jobs[..|jobs| - 1], scored[..|scored| - 1])
      && RowFor(resume, jobs[|jobs| - 1], scored[|scored| - 1]))
  }

  /** Row `i` of a scoring is posting `i` with its match. */
  lemma {:induction false} ScoredAt(resume: ResumeData, jobs: seq<JobPosting>, scored: seq<RankedMatch>, i: nat)
    requires ScoredFor(resume, jobs, scored) && i < |jobs|
    ensures RowFor(resume, jobs[i], scored[i])
    decreases |jobs|
  {
    if i < |jobs| - 1 {
      ScoredAt(resume, jobs[..|jobs| - 1], scored[..|scored| - 1], i);
    }
  }

  /** Every posting's match, paired with it in posting order. */
  method ScoreJobs(resume: ResumeData, jobs: seq<JobPosting>) returns (scored: seq<RankedMatch>)
    ensures ScoredFor(resume, jobs, scored)
  {
    scored := [];
    for i := 0 to |jobs|
      invariant ScoredFor(resume, jobs[..i], scored)
    {
      assert jobs[..i + 1] == jobs[..i] + [jobs[i]];
      var m := CalculateMatch(resume, jobs[i]);
      var row := RankedMatch(jobs[i], m, m.overallScore);
      ScoredSnoc(resume, jobs[..i], scored, jobs[i], row);
      scored := scored + [row];
    }
    assert jobs[..|jobs|] == jobs;
  }

  lemma ScoredSnoc(resume: ResumeData, jobs: seq<JobPosting>, scored: seq<RankedMatch>, job: JobPosting, row: RankedMatch)
    requires ScoredFor(resume, jobs, scored) && RowFor(resume, job, row)
    ensures ScoredFor(resume, jobs + [job], scored + [row])
  {
    assert (jobs + [job])[..|jobs|] == jobs;
    assert (scored + [row])[..|scored|] == scored;
  }

  /** `x` placed in front of the first row whose score it reaches. */
  function Insert(x: RankedMatch, sorted: seq<RankedMatch>): seq<RankedMatch>
  {
    if sorted == [] || x.overallScore >= sorted[0].overallScore then [x] + sorted
    else [sorted[0]] + Insert(x, sorted[1..])
  }

  /** `results.sort(key=overall_score, reverse=True)`: a stable sort, highest
      score first. */
  function SortByScore(rows: seq<RankedMatch>): seq<RankedMatch>
  {
    if rows == [] then [] else Insert(rows[0], SortByScore(rows[1..]))
  }

  ghost predicate SortedByScore(rows: seq<RankedMatch>)
  {
    forall i, j :: 0 <= i < j < |rows| ==> rows[i].overallScore >= rows[j].overallScore
  }

  /** The rows with score `v`, in order. */
  function WithScore(rows: seq<RankedMatch>, v: real): (r: seq<RankedMatch>)
    ensures |r| <= |rows|
  {
    if rows == [] then []
    else (if rows[0].overallScore == v then [rows[0]] else []) + WithScore(rows[1..], v)
  }

  /** The rows picked out all have score `v` and come from `rows`. */
  lemma {:induction false} WithScoreSpec(rows: seq<RankedMatch>, v: real)
    ensures forall x :: x in WithScore(rows, v) ==> x in rows && x.overallScore == v
  {
    if rows != [] {
      WithScoreSpec(rows[1..], v);
    }
  }

  lemma {:induction false} InsertPermutes(x: RankedMatch, sorted: seq<RankedMatch>)
    ensures multiset(Insert(x, sorted)) == multiset(sorted) + multiset{x}
  {
    if sorted != [] && x.overallScore < sorted[0].overallScore {
      var rest := sorted[1..];
      assert sorted == [sorted[0]] + rest;
      InsertPermutes(x, rest);
    }
  }

  lemma {:induction false} InsertSorted(x: RankedMatch, sorted: seq<RankedMatch>)
    requires SortedByScore(sorted)
    ensures SortedByScore(Insert(x, sorted))
    ensures |Insert(x, sorted)| == |sorted| + 1
    ensures Insert(x, sorted)[0] == x || Insert(x, sorted)[0] == sorted[0]
  {
    if sorted == [] || x.overallScore >= sorted[0].overallScore {
      var r := [x] + sorted;
      forall i, j | 0 <= i < j < |r| ensures r[i].overallScore >= r[j].overallScore {
        if i == 0 {
          assert r[j] == sorted[j - 1];
        } else {
          assert r[i] == sorted[i - 1] && r[j] == sorted[j - 1];
        }
      }
    } else {
      var rest := sorted[1..];
      InsertSorted(x, rest);
      var tail := Insert(x, rest);
      var r := [sorted[0]] + tail;
      assert tail[0].overallScore <= sorted[0].overallScore;
      forall i, j | 0 <= i < j < |r| ensures r[i].overallScore >= r[j].overallScore {
        if i == 0 {
          assert r[j] == tail[j - 1];
          assert tail[0].overallScore >= tail[j - 1].overallScore;
        } else {
          assert r[i] == tail[i - 1] && r[j] == tail[j - 1];
        }
      }
    }
  }

  /** The sort orders by score, highest first, and only reorders. */
  lemma {:induction false} SortByScoreSpec(rows: seq<RankedMatch>)
    ensures SortedByScore(SortByScore(rows))
    ensures multiset(SortByScore(rows)) == multiset(rows)
  {
    if rows != [] {
      SortByScoreSpec(rows[1..]);
      InsertSorted(rows[0], SortByScore(rows[1..]));
      InsertPermutes(rows[0], SortByScore(rows[1..]));
      assert rows == [rows[0]] + rows[1..];
    }
  }

  lemma {:induction false} InsertStable(x: RankedMatch, sorted: seq<RankedMatch>, v: real)
    ensures WithScore(Insert(x, sorted), v) == WithScore([x], v) + WithScore(sorted, v)
  {
    if sorted == [] || x.overallScore >= sorted[0].overallScore {
      WithScoreCons(x, sorted, v);
    } else {
      var head, rest := sorted[0], sorted[1..];
      assert sorted == [head] + rest;
      InsertStable(x, rest, v);
      WithScoreCons(head, Insert(x, rest), v);
      WithScoreCons(head, rest, v);
      WithScoreSingle(x, v);
      WithScoreSingle(head, v);
      var wx, wh, wr := WithScore([x], v), WithScore([head], v), WithScore(rest, v);
      assert wh + wx == wx + wh by {
        assert wx == [] || wh == [];
      }
      assert wh + (wx + wr) == wx + (wh + wr);
    }
  }

  lemma WithScoreCons(x: RankedMatch, rows: seq<RankedMatch>, v: real)
    ensures WithScore([x] + rows, v) == WithScore([x], v) + WithScore(rows, v)
  {
    assert ([x] + rows)[1..] == rows;
    WithScoreSingle(x, v);
  }

  /** The sort is stable: the rows of any one score keep their order. */
  lemma {:induction false} SortByScoreStable(rows: seq<RankedMatch>, v: real)
    ensures WithScore(SortByScore(rows), v) == WithScore(rows, v)
  {
    if rows != [] {
      SortByScoreStable(rows[1..], v);
      InsertStable(rows[0], SortByScore(rows[1..]), v);
      WithScoreSingle(rows[0], v);
    }
  }

  lemma WithScoreSingle(x: RankedMatch, v: real)
    ensures WithScore([x], v) == if x.overallScore == v then [x] else []
  {
    assert [x][1..] == [];
  }

  /** The result rows: the `topN` best-scoring of `scored`. */
  function Ranked(scored: seq<RankedMatch>, topN: int): seq<RankedMatch>
  {
    PyPrefix(SortByScore(scored), topN)
  }

  /** `compare_resume_with_jobs`. */
  method CompareResumeWithJobs(resume: ResumeData, jobs: seq<JobPosting>, topN: int) returns (top: seq<RankedMatch>)
    ensures exists scored :: ScoredFor(resume, jobs, scored) && top == Ranked(scored, topN)
  {
    var results := ScoreJobs(resume, jobs);
    top := PyPrefix(SortByScore(results), topN);
    assert ScoredFor(resume, jobs, results) && top == Ranked(results, topN);
  }

  /** The ranking: `min(topN, n)` rows, highest score first, drawn from the
      scored rows, and none of the rows left out scores above a row kept. */
  lemma RankedSpec(scored: seq<RankedMatch>, topN: int)
    ensures var top := Ranked(scored, topN);
      var dropped := SortByScore(scored)[|top|..];
      && (topN >= 0 ==> |top| == Min(topN, |scored|))
      && (topN < 0 ==> |top| == Max(0, |scored| + topN))
      && SortedByScore(top)
      && multiset(top) + multiset(dropped) == multiset(scored)
      && forall a, b :: 0 <= a < |top| && 0 <= b < |dropped| ==> top[a].overallScore >= dropped[b].overallScore
  {
    var sorted := SortByScore(scored);
    SortByScoreSpec(scored);
    var top := Ranked(scored, topN);
    assert |sorted| == |scored| by {
      assert |multiset(sorted)| == |multiset(scored)|;
    }
    assert top == sorted[..|top|];
    CutSorted(sorted, |top|);
  }

  /** Cutting a sorted list leaves a sorted head that, with the tail, holds
      every row, and no row of the tail scores above one of the head. */
  lemma CutSorted(sorted: seq<RankedMatch>, k: nat)
    requires SortedByScore(sorted) && k <= |sorted|
    ensures SortedByScore(sorted[..k])
    ensures multiset(sorted[..k]) + multiset(sorted[k..]) == multiset(sorted)
    ensures forall a, b :: 0 <= a < k && 0 <= b < |sorted| - k ==> sorted[..k][a].overallScore >= sorted[k..][b].overallScore
  {
    assert sorted == sorted[..k] + sorted[k..];
    forall a, b | 0 <= a < k && 0 <= b < |sorted| - k
      ensures sorted[..k][a].overallScore >= sorted[k..][b].overallScore
    {
      assert sorted[k..][b] == sorted[k + b];
    }
  }

  /** Every ranked row is one of the postings with its own match, so its
      score is that posting's overall score. */
  lemma RankedRowsAreMatches(resume: ResumeData, jobs: seq<JobPosting>, scored: seq<RankedMatch>, topN: int)
    requires ScoredFor(resume, jobs, scored)
    ensures forall r :: r in Ranked(scored, topN) ==>
      r.job in jobs && IsMatchFor(resume, r.job, r.score) && r.overallScore == OverallFor(resume, r.job)
  {
    SortByScoreSpec(scored);
    forall r | r in Ranked(scored, topN)
      ensures r.job in jobs && IsMatchFor(resume, r.job, r.score) && r.overallScore == OverallFor(resume, r.job)
    {
      assert r in multiset(SortByScore(scored));
      assert r in scored;
      var i :| 0 <= i < |scored| && scored[i] == r;
      ScoredAt(resume, jobs, scored, i);
      assert r.job == jobs[i];
    }
  }

  // ---------------------------------------------------------- score colour

  /** The report's badge colours: green "#4caf50", orange "#ff9800", red "#f44336". */
  datatype ScoreColor = Green | Orange | Red

  function Hex(c: ScoreColor): string
  {
    match c
    case Green => "#4caf50"
    case Orange => "#ff9800"
    case Red => "#f44336"
  }

  /** The badge colour the report writes for an overall score. */
  function BadgeColor(overall: real): (hex: string)
    ensures hex == "#4caf50" <==> overall >= 70.0
    ensures hex == "#ff9800" <==> 50.0 <= overall < 70.0
    ensures hex == "#f44336" <==> overall < 50.0
  {
    Hex(ColorOf(overall))
  }

  /** Green from 70, orange from 50, red below. */
  function ColorOf(overall: real): (c: ScoreColor)
    ensures c == Green <==> overall >= 70.0
    ensures c == Red <==> overall < 50.0
    ensures c == Orange <==> 50.0 <= overall < 70.0
  {
    if overall >= 70.0 then Green else if overall >= 50.0 then Orange else Red
  }

  function Level(c: ScoreColor): nat
  {
    match c
    case Red => 0
    case Orange => 1
    case Green => 2
  }

  /** A higher score never gets a worse colour. */
  lemma ColorMonotone(a: real, b: real)
    requires a <= b
    ensures Level(ColorOf(a)) <= Level(ColorOf(b))
  {
  }

  // -------------------------------------------------------- loading postings

  /** A JSON value as far as posting validation looks at it: a string, a
      number (kept as its text), null, or anything else. */
  datatype JsonValue = JString(text: string) | JNumber(digits: string) | JNull | JOther

  /** An entry of the file's "jobs" list. */
  datatype JsonEntry = JObject(fields: map<string, JsonValue>) | NotAnObject

  /** The postings file: absent, unreadable (not JSON, not an object, or a
      "jobs" value that cannot be iterated: a number, a boolean or null), or
      the entries iterating "jobs" yields (none when the key is absent; the
      keys of an object or the characters of a string, none of them an
      object, when "jobs" is one of those). */
  datatype JobsFile = Missing | Unreadable | Parsed(entries: seq<JsonEntry>)

  /** A required string field. */
  function RequiredText(fields: map<string, JsonValue>, key: string): (r: Option<string>)
    ensures r.Some? <==> key in fields && fields[key].JString?
    ensures r.Some? ==> fields[key] == JString(r.value)
  {
    if key in fields && fields[key].JString? then Some(fields[key].text) else None
  }

  /** An optional string field: absent or null gives `Some(None)`, a string
      gives it, anything else is invalid. */
  function OptionalText(fields: map<string, JsonValue>, key: string): (r: Option<Option<string>>)
    ensures r.None? <==> key in fields && !fields[key].JNull? && !fields[key].JString?
    ensures r == Some(None) <==> key !in fields || fields[key].JNull?
  {
    if key !in fields || fields[key].JNull? then Some(None)
    else if fields[key].JString? then Some(Some(fields[key].text))
    else None
  }

  /** The optional date field: absent or null, or a string or number the
      date parser accepts. */
  function OptionalDate(fields: map<string, JsonValue>, acceptsDate: JsonValue -> bool): (r: Option<Option<string>>)
    ensures r == Some(None) <==> "posted_date" !in fields || fields["posted_date"].JNull?
    ensures r.Some? && r.value.Some? ==> acceptsDate(fields["posted_date"])
  {
    if "posted_date" !in fields || fields["posted_date"].JNull? then Some(None)
    else
      var v := fields["posted_date"];
      if v.JString? && acceptsDate(v) then Some(Some(v.text))
      else if v.JNumber? && acceptsDate(v) then Some(Some(v.digits))
      else None
  }

  /** `JobPosting(**job_data)`: the posting an entry describes, or `None`
      when validation fails. Keys the posting does not have are ignored. */
  function PostingFrom(entry: JsonEntry, acceptsDate: JsonValue -> bool): Option<JobPosting>
  {
    if entry.NotAnObject? then None
    else
      var f := entry.fields;
      var id, title, company := RequiredText(f, "id"), RequiredText(f, "title"), RequiredText(f, "company");
      var description, url, source := RequiredText(f, "description"), RequiredText(f, "url"), RequiredText(f, "source");
      var location, salary, jobType := OptionalText(f, "location"), OptionalText(f, "salary"), OptionalText(f, "job_type");
      var postedDate := OptionalDate(f, acceptsDate);
      if id.Some? && title.Some? && company.Some? && description.Some? && url.Some? && source.Some?
         && location.Some? && salary.Some? && jobType.Some? && postedDate.Some?
      then Some(JobPosting(id.value, title.value, company.value, location.value, description.value,
                           url.value, source.value, postedDate.value, salary.value, jobType.value))
      else None
  }

  const PostingKeys: set<string> := {"id", "title", "company", "location", "description", "url",
                                     "source", "posted_date", "salary", "job_type"}

  /** A posting carries its entry's text fields, and an entry without a
      string "id", "title", "company", "description", "url" or "source"
      gives none. */
  lemma PostingFromSpec(entry: JsonEntry, acceptsDate: JsonValue -> bool)
    ensures var p := PostingFrom(entry, acceptsDate);
      p.Some? ==>
        && entry.JObject?
        && entry.fields["id"] == JString(p.value.id) && entry.fields["title"] == JString(p.value.title)
        && entry.fields["company"] == JString(p.value.company) && entry.fields["url"] == JString(p.value.url)
        && entry.fields["description"] == JString(p.value.description) && entry.fields["source"] == JString(p.value.source)
    ensures entry.JObject? && RequiredText(entry.fields, "url").None? ==> PostingFrom(entry, acceptsDate).None?
    ensures entry.JObject? && RequiredText(entry.fields, "id").None? ==> PostingFrom(entry, acceptsDate).None?
  {
  }

  /** Extra keys do not affect validation. */
  lemma ExtraKeysIgnored(fields: map<string, JsonValue>, key: string, v: JsonValue, acceptsDate: JsonValue -> bool)
    requires key !in PostingKeys
    ensures PostingFrom(JObject(fields[key := v]), acceptsDate) == PostingFrom(JObject(fields), acceptsDate)
  {
    var g := fields[key := v];
    forall k | k in PostingKeys ensures (k in g <==> k in fields) && (k in g ==> g[k] == fields[k]) {
    }
    assert RequiredText(g, "id") == RequiredText(fields, "id");
    assert RequiredText(g, "url") == RequiredText(fields, "url");
    assert OptionalDate(g, acceptsDate) == OptionalDate(fields, acceptsDate);
  }

  /** The postings of the valid entries, in order. */
  function ValidPostings(entries: seq<JsonEntry>, acceptsDate: JsonValue -> bool): (r: seq<JobPosting>)
    ensures |r| <= |entries|
  {
    if entries == [] then []
    else
      var init, last := entries[..|entries| - 1], entries[|entries| - 1];
      match PostingFrom(last, acceptsDate)
      case Some(p) => ValidPostings(init, acceptsDate) + [p]
      case None => ValidPostings(init, acceptsDate)
  }

  /** Loading is entry by entry: the postings of two lists are those of each. */
  lemma {:induction false} ValidPostingsAppend(a: seq<JsonEntry>, b: seq<JsonEntry>, acceptsDate: JsonValue -> bool)
    ensures ValidPostings(a + b, acceptsDate) == ValidPostings(a, acceptsDate) + ValidPostings(b, acceptsDate)
    decreases |b|
  {
    if b == [] {
      assert a + b == a;
    } else {
      var init := b[..|b| - 1];
      assert (a + b)[..|a + b| - 1] == a + init;
      assert (a + b)[|a + b| - 1] == b[|b| - 1];
      ValidPostingsAppend(a, init, acceptsDate);
    }
  }

  /** Each posting loaded comes from an entry. */
  lemma {:induction false} ValidPostingsFromEntries(entries: seq<JsonEntry>, acceptsDate: JsonValue -> bool)
    ensures forall p :: p in ValidPostings(entries, acceptsDate) ==>
      exists i :: 0 <= i < |entries| && PostingFrom(entries[i], acceptsDate) == Some(p)
  {
    if entries != [] {
      var init, last := entries[..|entries| - 1], entries[|entries| - 1];
      ValidPostingsFromEntries(init, acceptsDate);
      forall p | p in ValidPostings(entries, acceptsDate)
        ensures exists i :: 0 <= i < |entries| && PostingFrom(entries[i], acceptsDate) == Some(p)
      {
        if p in ValidPostings(init, acceptsDate) {
          var i :| 0 <= i < |init| && PostingFrom(init[i], acceptsDate) == Some(p);
          assert entries[i] == init[i];
        } else {
          assert PostingFrom(entries[|entries| - 1], acceptsDate) == Some(p);
        }
      }
    }
  }

  /** When every entry is valid, they all load, in order. */
  lemma {:induction false} AllValidLoaded(entries: seq<JsonEntry>, acceptsDate: JsonValue -> bool)
    requires forall i :: 0 <= i < |entries| ==> PostingFrom(entries[i], acceptsDate).Some?
    ensures |ValidPostings(entries, acceptsDate)| == |entries|
    ensures forall i :: 0 <= i < |entries| ==> ValidPostings(entries, acceptsDate)[i] == PostingFrom(entries[i], acceptsDate).value
  {
    if entries != [] {
      var init, last := entries[..|entries| - 1], entries[|entries| - 1];
      assert forall i :: 0 <= i < |init| ==> init[i] == entries[i];
      AllValidLoaded(init, acceptsDate);
      assert PostingFrom(last, acceptsDate).Some?;
      assert ValidPostings(entries, acceptsDate) == ValidPostings(init, acceptsDate) + [PostingFrom(last, acceptsDate).value];
    }
  }

  /** An invalid entry is skipped and loading goes on. */
  lemma InvalidEntrySkipped(a: seq<JsonEntry>, bad: JsonEntry, b: seq<JsonEntry>, acceptsDate: JsonValue -> bool)
    requires PostingFrom(bad, acceptsDate).None?
    ensures ValidPostings(a + [bad] + b, acceptsDate) == ValidPostings(a + b, acceptsDate)
  {
    ValidPostingsAppend(a + [bad], b, acceptsDate);
    ValidPostingsAppend(a, b, acceptsDate);
    assert (a + [bad])[..|a|] == a;
  }

  /** `load_jobs`: `None` when the file is missing or unreadable, else the
      postings of its valid entries. The date parser is a parameter. */
  method LoadJobs(file: JobsFile, acceptsDate: JsonValue -> bool) returns (jobs: Option<seq<JobPosting>>)
    ensures jobs.Some? <==> file.Parsed?
    ensures file.Parsed? ==> jobs.value == ValidPostings(file.entries, acceptsDate)
  {
    if !file.Parsed? {
      return None;
    }
    var loaded: seq<JobPosting> := [];
    for i := 0 to |file.entries|
      invariant loaded == ValidPostings(file.entries[..i], acceptsDate)
    {
      assert file.entries[..i + 1][..i] == file.entries[..i];
      var job := PostingFrom(file.entries[i], acceptsDate);
      if job.Some? {
        loaded := loaded + [job.value];
      }
    }
    assert file.entries[..|file.entries|] == file.entries;
    return Some(loaded);
  }
}

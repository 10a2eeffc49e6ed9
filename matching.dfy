/** The résumé/job match scorer: four sub-scores, their fixed weighted sum,
    the matched and missing keyword lists and the recommendations. */
module Matching {
  import opened Seqs
  import opened Text
  import opened Models

  /** The technology terms whose presence in a posting marks a required skill. */
  const CommonTechKeywords: seq<string> := [
    "python", "javascript", "java", "react", "vue", "angular", "node.js",
    "django", "flask", "fastapi", "spring", "sql", "mongodb", "postgresql",
    "aws", "docker", "kubernetes", "git", "linux", "agile", "machine learning"]

  /** Description terms that mark a senior position. */
  const SeniorKeywords: seq<string> := ["senior", "lead", "manager", "5+", "10+"]

  /** Description terms that mark a junior position. */
  const JuniorKeywords: seq<string> := ["junior", "entry", "0-2", "1-3"]

  /** Description terms that mark an education requirement. */
  const EducationKeywords: seq<string> := ["bachelor", "master", "phd", "degree", "university", "college"]

  /** Words never reported as missing. */
  const StopWords: seq<string> := ["the", "and", "for", "with", "this", "that"]

  /** How many matched, missing and suggested keywords are reported. */
  const MatchedReportCap := 20
  const MissingReportCap := 10
  const SuggestedKeywordCap := 5

  /** The denominator of the description score is capped at this many job words. */
  const JobWordCap := 100

  function RealMin(a: real, b: real): real { if a <= b then a else b }

  function RealMax(a: real, b: real): real { if a <= b then b else a }

  /** The lower-cased `title + " " + description` of a posting. */
  function JobText(job: JobPosting): string
  {
    Lower(job.title + " " + job.description)
  }

  /** The terms of `terms` that occur in `text`, in their order:
      `[t for t in terms if t in text]`. */
  function TermsIn(terms: seq<string>, text: string): (r: seq<string>)
    ensures |r| <= |terms|
    ensures forall t :: t in r <==> t in terms && Contains(text, t)
  {
    if terms == [] then []
    else
      var init, t := terms[..|terms| - 1], terms[|terms| - 1];
      assert terms == init + [t];
      if Contains(text, t) then TermsIn(init, text) + [t] else TermsIn(init, text)
  }

  /** The filter keeps the order of `terms` and keeps every occurrence of a
      term that occurs in `text`, duplicates included, so the number of
      terms kept is what the skills score divides. */
  lemma {:induction false} TermsInCounts(terms: seq<string>, text: string)
    ensures Subseq(TermsIn(terms, text), terms)
    ensures forall t :: multiset(TermsIn(terms, text))[t] == if Contains(text, t) then multiset(terms)[t] else 0
  {
    if terms != [] {
      var init, last := terms[..|terms| - 1], terms[|terms| - 1];
      assert terms == init + [last];
      TermsInCounts(init, text);
      SubseqSnoc(TermsIn(init, text), init, last);
      assert multiset(terms) == multiset(init) + multiset{last};
      if Contains(text, last) {
        assert multiset(TermsIn(terms, text)) == multiset(TermsIn(init, text)) + multiset{last};
      }
    }
  }

  /** `any(t in text for t in terms)`. */
  predicate AnyIn(terms: seq<string>, text: string)
  {
    exists i :: 0 <= i < |terms| && Contains(text, terms[i])
  }

  /** `min(count / total * 100, 100)`: a ratio as a percentage capped at 100. */
  function Percentage(count: nat, total: nat): (r: real)
    requires total > 0
    ensures 0.0 <= r <= 100.0
    ensures r == 0.0 <==> count == 0
    ensures count >= total ==> r == 100.0
  {
    var ratio := (count as real) / (total as real);
    assert count > 0 ==> ratio > 0.0;
    assert count >= total ==> ratio >= 1.0;
    RealMin(ratio * 100.0, 100.0)
  }

  /** Every skill, lower-cased. */
  function LowerAll(skills: seq<string>): (r: seq<string>)
    ensures |r| == |skills| && forall i :: 0 <= i < |skills| ==> r[i] == Lower(skills[i])
  {
    seq(|skills|, i requires 0 <= i < |skills| => Lower(skills[i]))
  }

  // ---------------------------------------------------------------- skills

  /** The skills sub-score: 0 without skills, 50 when the posting names no
      common technology, otherwise the number of résumé skills found in the
      posting per required technology, as a percentage capped at 100. */
  function SkillsScore(resume: ResumeData, job: JobPosting): real
  {
    if |resume.skills| == 0 then 0.0
    else
      var text := JobText(job);
      var required := TermsIn(CommonTechKeywords, text);
      if |required| == 0 then 50.0
      else
        Percentage(|TermsIn(LowerAll(resume.skills), text)|, |required|)
  }

  /** `_calculate_skills_match`: collects the résumé skills that occur in the
      posting's text, then scores them against the required technologies. */
  method SkillsMatch(resume: ResumeData, job: JobPosting) returns (score: real)
    ensures score == SkillsScore(resume, job)
  {
    if |resume.skills| == 0 {
      return 0.0;
    }
    var jobText := JobText(job);
    var skillsLower := LowerAll(resume.skills);
    var matchedSkills: seq<string> := [];
    var i := 0;
    while i < |skillsLower|
      invariant 0 <= i <= |skillsLower|
      invariant matchedSkills == TermsIn(skillsLower[..i], jobText)
    {
      assert skillsLower[..i + 1][..i] == skillsLower[..i];
      if Contains(jobText, skillsLower[i]) {
        matchedSkills := matchedSkills + [skillsLower[i]];
      }
      i := i + 1;
    }
    assert skillsLower[..i] == skillsLower;
    var requiredSkills := TermsIn(CommonTechKeywords, jobText);
    if |requiredSkills| == 0 {
      return 50.0;
    }
    score := Percentage(|matchedSkills|, |requiredSkills|);
  }

  /** The skills sub-score is a percentage; it is 0 exactly when the résumé
      lists no skills or none of them occurs in a posting that names a
      common technology, and 50 when the posting names none. */
  lemma SkillsScoreSpec(resume: ResumeData, job: JobPosting)
    ensures 0.0 <= SkillsScore(resume, job) <= 100.0
    ensures |resume.skills| == 0 ==> SkillsScore(resume, job) == 0.0
    ensures |resume.skills| > 0 && TermsIn(CommonTechKeywords, JobText(job)) == [] ==> SkillsScore(resume, job) == 50.0
    ensures |resume.skills| > 0 && TermsIn(CommonTechKeywords, JobText(job)) != [] ==>
      (SkillsScore(resume, job) == 0.0 <==> forall s :: s in resume.skills ==> !Contains(JobText(job), Lower(s)))
  {
    var text := JobText(job);
    var lowered := LowerAll(resume.skills);
    var matched := TermsIn(lowered, text);
    if matched != [] {
      assert matched[0] in lowered;
      var i :| 0 <= i < |lowered| && lowered[i] == matched[0];
      assert resume.skills[i] in resume.skills && Contains(text, Lower(resume.skills[i]));
    } else {
      forall s | s in resume.skills ensures !Contains(text, Lower(s)) {
        var i :| 0 <= i < |resume.skills| && resume.skills[i] == s;
        assert lowered[i] in lowered;
      }
    }
  }

  /** If the posting's text contains "javascript", it counts "java" as a
      required technology too, and a résumé skill "Java" as found in it:
      skill detection is substring containment, not a word match. */
  lemma JavaFoundInJavaScript(job: JobPosting)
    requires Contains(JobText(job), "javascript")
    ensures "java" in TermsIn(CommonTechKeywords, JobText(job))
    ensures "java" in TermsIn(LowerAll(["Java"]), JobText(job))
  {
    ContainsPrefix(JobText(job), "java", "javascript");
    assert CommonTechKeywords[2] == "java";
    assert Lower("Java") == "java";
    assert LowerAll(["Java"])[0] == "java";
  }

  // ------------------------------------------------------------ experience

  /** The experience sub-score from the number of experience entries and the
      seniority the posting's description (not its title) suggests. */
  function ExperienceScore(resume: ResumeData, job: JobPosting): real
  {
    if |resume.experience| == 0 then 0.0
    else
      var text := Lower(job.description);
      var isSenior := AnyIn(SeniorKeywords, text);
      var isJunior := AnyIn(JuniorKeywords, text);
      var count := |resume.experience|;
      if isSenior && count >= 3 then 90.0
      else if isJunior && count >= 1 then 80.0
      else if count >= 2 then 70.0
      else if count >= 1 then 50.0
      else 20.0
  }

  /** The experience sub-score takes five values only; it is 0 exactly when
      there is no experience, so the fall-back 20 is never produced; and it
      does not depend on the posting's title. */
  lemma ExperienceScoreSpec(resume: ResumeData, job: JobPosting, other: JobPosting)
    requires other.description == job.description
    ensures ExperienceScore(resume, job) in {0.0, 50.0, 70.0, 80.0, 90.0}
    ensures ExperienceScore(resume, job) == 0.0 <==> |resume.experience| == 0
    ensures ExperienceScore(resume, job) != 20.0
    ensures ExperienceScore(resume, job) == 90.0 <==> AnyIn(SeniorKeywords, Lower(job.description)) && |resume.experience| >= 3
    ensures ExperienceScore(resume, other) == ExperienceScore(resume, job)
  {
  }

  // ------------------------------------------------------------- education

  /** The education sub-score: neutral 50 without education entries,
      otherwise 80 when the description asks for a degree and 70 when not. */
  function EducationScore(resume: ResumeData, job: JobPosting): real
  {
    if |resume.education| == 0 then 50.0
    else if AnyIn(EducationKeywords, Lower(job.description)) then 80.0
    else 70.0
  }

  lemma EducationScoreSpec(resume: ResumeData, job: JobPosting, other: JobPosting)
    requires other.description == job.description
    ensures EducationScore(resume, job) in {50.0, 70.0, 80.0}
    ensures EducationScore(resume, job) == 50.0 <==> |resume.education| == 0
    ensures EducationScore(resume, other) == EducationScore(resume, job)
  {
  }

  // ----------------------------------------------------------- description

  /** `set(job_text.split())`. */
  function JobWords(job: JobPosting): set<string>
  {
    set w | w in Words(JobText(job))
  }

  /** `set(resume.raw_text.lower().split())`. */
  function ResumeWords(resume: ResumeData): set<string>
  {
    set w | w in Words(Lower(resume.rawText))
  }

  /** Job words longer than three characters that the résumé also has. */
  function CommonKeywords(jobWords: set<string>, resumeWords: set<string>): set<string>
  {
    set w | w in jobWords && |w| > 3 && w in resumeWords
  }

  /** Job words longer than four characters that the résumé lacks, less stop words. */
  function MissingKeywords(jobWords: set<string>, resumeWords: set<string>): set<string>
  {
    set w | w in jobWords && |w| > 4 && w !in resumeWords && w !in StopWords
  }

  /** The description sub-score: the number of common keywords per job word
      (at most 100 job words counted), as a percentage capped at 100; 0 when
      the posting has no words. */
  function DescriptionScore(resume: ResumeData, job: JobPosting): real
  {
    var jobWords := JobWords(job);
    if |jobWords| > 0 then
      Percentage(|CommonKeywords(jobWords, ResumeWords(resume))|, Min(|jobWords|, JobWordCap))
    else 0.0
  }

  /** The reported keyword lists: duplicate-free, drawn from the common and
      missing keyword sets, and as long as those sets allow up to the caps. */
  ghost predicate ReportedKeywords(resume: ResumeData, job: JobPosting, matched: seq<string>, missing: seq<string>)
  {
    var common := CommonKeywords(JobWords(job), ResumeWords(resume));
    var absent := MissingKeywords(JobWords(job), ResumeWords(resume));
    && Distinct(matched) && |matched| == Min(MatchedReportCap, |common|)
    && (forall w :: w in matched ==> w in common)
    && Distinct(missing) && |missing| == Min(MissingReportCap, |absent|)
    && (forall w :: w in missing ==> w in absent)
  }

  /** The two comprehensions of `_calculate_description_match`, visiting the
      job words in an unspecified order, as Python's set iteration does. */
  method CollectKeywords(jobWords: set<string>, resumeWords: set<string>) returns (common: seq<string>, important: seq<string>)
    ensures Distinct(common) && (set w | w in common) == CommonKeywords(jobWords, resumeWords)
    ensures Distinct(important) && (set w | w in important) == MissingKeywords(jobWords, resumeWords)
    ensures |common| == |CommonKeywords(jobWords, resumeWords)|
    ensures |important| == |MissingKeywords(jobWords, resumeWords)|
  {
    ghost var commonSet := CommonKeywords(jobWords, resumeWords);
    ghost var absentSet := MissingKeywords(jobWords, resumeWords);
    common, important := [], [];
    var remaining := jobWords;
    while remaining != {}
      invariant remaining <= jobWords
      invariant Distinct(common) && Distinct(important)
      invariant forall w :: w in common <==> w in commonSet && w !in remaining
      invariant forall w :: w in important <==> w in absentSet && w !in remaining
      decreases |remaining|
    {
      var word :| word in remaining;
      if |word| > 3 && word in resumeWords {
        common := common + [word];
      }
      if |word| > 4 && word !in resumeWords && word !in StopWords {
        important := important + [word];
      }
      remaining := remaining - {word};
    }
    assert (set w | w in common) == commonSet;
    assert (set w | w in important) == absentSet;
    DistinctCardinality(common);
    DistinctCardinality(important);
  }

  /** `_calculate_description_match`: the description score and the two
      reported keyword lists, cut to their caps. */
  method DescriptionMatch(resume: ResumeData, job: JobPosting) returns (score: real, matched: seq<string>, missing: seq<string>)
    ensures score == DescriptionScore(resume, job)
    ensures ReportedKeywords(resume, job, matched, missing)
  {
    var jobWords := JobWords(job);
    var resumeWords := ResumeWords(resume);
    var commonKeywords, importantKeywords := CollectKeywords(jobWords, resumeWords);
    if |jobWords| > 0 {
      score := Percentage(|commonKeywords|, Min(|jobWords|, JobWordCap));
    } else {
      score := 0.0;
    }
    matched := PyPrefix(commonKeywords, MatchedReportCap);
    missing := PyPrefix(importantKeywords, MissingReportCap);
    CappedListsReported(resume, job, commonKeywords, importantKeywords);
  }

  /** Cutting the collected keyword lists to their caps gives the reported lists. */
  lemma CappedListsReported(resume: ResumeData, job: JobPosting, common: seq<string>, important: seq<string>)
    requires Distinct(common) && (set w | w in common) == CommonKeywords(JobWords(job), ResumeWords(resume))
    requires Distinct(important) && (set w | w in important) == MissingKeywords(JobWords(job), ResumeWords(resume))
    requires |common| == |CommonKeywords(JobWords(job), ResumeWords(resume))|
    requires |important| == |MissingKeywords(JobWords(job), ResumeWords(resume))|
    ensures ReportedKeywords(resume, job, PyPrefix(common, MatchedReportCap), PyPrefix(important, MissingReportCap))
  {
    SlicePreserves(common, MatchedReportCap);
    SlicePreserves(important, MissingReportCap);
  }

  /** A prefix of a duplicate-free list is duplicate-free and holds only its elements. */
  lemma SlicePreserves(s: seq<string>, n: nat)
    requires Distinct(s)
    ensures Distinct(PyPrefix(s, n))
    ensures forall w :: w in PyPrefix(s, n) ==> w in s
  {
    var r := PyPrefix(s, n);
    assert forall i :: 0 <= i < |r| ==> r[i] == s[i];
  }

  /** The description sub-score is a percentage, and it is 0 when the
      posting's text has no words. */
  lemma DescriptionScoreSpec(resume: ResumeData, job: JobPosting)
    ensures 0.0 <= DescriptionScore(resume, job) <= 100.0
    ensures JobWords(job) == {} ==> DescriptionScore(resume, job) == 0.0
  {
  }

  /** Every stop word is at most four characters long, so the stop-word
      filter never removes a candidate missing keyword. */
  lemma StopWordsNeverFilter(jobWords: set<string>, resumeWords: set<string>)
    ensures MissingKeywords(jobWords, resumeWords) == set w | w in jobWords && |w| > 4 && w !in resumeWords
  {
    assert forall w :: w in StopWords ==> |w| <= 4;
  }

  /** A posting with empty title and description has no words, so its
      description score is 0 and nothing is reported missing. */
  lemma EmptyPostingHasNoKeywords(resume: ResumeData, job: JobPosting, matched: seq<string>, missing: seq<string>)
    requires job.title == "" && job.description == ""
    requires ReportedKeywords(resume, job, matched, missing)
    ensures DescriptionScore(resume, job) == 0.0
    ensures matched == [] && missing == []
  {
    assert JobText(job) == " ";
    assert Words(" ") == [];
    assert JobWords(job) == {};
  }

  /** A matched keyword is never reported missing, and when the caps are not
      reached the lists name every common and every missing keyword. */
  lemma ReportedKeywordsSpec(resume: ResumeData, job: JobPosting, matched: seq<string>, missing: seq<string>)
    requires ReportedKeywords(resume, job, matched, missing)
    ensures forall w :: w in matched ==> w !in missing
    ensures forall w :: w in matched ==> |w| > 3 && w in JobWords(job) && w in ResumeWords(resume)
    ensures forall w :: w in missing ==> |w| > 4 && w in JobWords(job) && w !in ResumeWords(resume)
    ensures |CommonKeywords(JobWords(job), ResumeWords(resume))| <= MatchedReportCap ==>
      (set w | w in matched) == CommonKeywords(JobWords(job), ResumeWords(resume))
    ensures |MissingKeywords(JobWords(job), ResumeWords(resume))| <= MissingReportCap ==>
      (set w | w in missing) == MissingKeywords(JobWords(job), ResumeWords(resume))
  {
    var common := CommonKeywords(JobWords(job), ResumeWords(resume));
    var absent := MissingKeywords(JobWords(job), ResumeWords(resume));
    DistinctCardinality(matched);
    DistinctCardinality(missing);
    if |common| <= MatchedReportCap {
      SubsetOfEqualSize((set w | w in matched), common);
    }
    if |absent| <= MissingReportCap {
      SubsetOfEqualSize((set w | w in missing), absent);
    }
  }

  /** A subset as large as its superset is the superset. */
  lemma SubsetOfEqualSize(a: set<string>, b: set<string>)
    requires a <= b && |a| == |b|
    ensures a == b
  {
    assert b == a + (b - a);
    assert a * (b - a) == {};
    assert |b - a| == 0;
  }

  // --------------------------------------------------------------- overall

  /** The fixed weighted sum of the four sub-scores. */
  function OverallScore(skills: real, experience: real, education: real, description: real): real
  {
    skills * 0.3 + experience * 0.3 + education * 0.1 + description * 0.3
  }

  /** The weights sum to one, so the overall score lies between the smallest
      and the largest sub-score. */
  lemma OverallBetweenSubScores(skills: real, experience: real, education: real, description: real)
    ensures var r := OverallScore(skills, experience, education, description);
      && RealMin(RealMin(skills, experience), RealMin(education, description)) <= r
      && r <= RealMax(RealMax(skills, experience), RealMax(education, description))
  {
  }

  // -------------------------------------------------------- recommendations

  /** No summary, as Python's `not resume.summary` reads it. */
  predicate NoSummary(resume: ResumeData)
  {
    resume.summary.None? || resume.summary.value == ""
  }

  /** Some skills but fewer than five. */
  predicate FewSkills(resume: ResumeData)
  {
    0 < |resume.skills| < 5
  }

  /** The position of each kind of advice in the list. */
  function Rank(r: Recommendation): nat
  {
    match r
    case AddKeywords(_) => 0
    case AddMoreSkills => 1
    case AddExperienceSection => 2
    case AddSummarySection => 3
    case GoodFit => 4
  }

  /** Strictly increasing ranks: each kind at most once, in the fixed order. */
  ghost predicate Ordered(recs: seq<Recommendation>)
  {
    forall i, j :: 0 <= i < j < |recs| ==> Rank(recs[i]) < Rank(recs[j])
  }

  predicate HasKeywordAdvice(recs: seq<Recommendation>)
  {
    exists i :: 0 <= i < |recs| && recs[i].AddKeywords?
  }

  /** The advice for a résumé with the given missing keywords: each kind at
      most once and in a fixed order, each present exactly when its condition
      holds, the keyword advice naming the first five missing keywords, and
      the good-fit message exactly when no other advice applies. */
  ghost predicate AdvisedFor(resume: ResumeData, missing: seq<string>, recs: seq<Recommendation>)
  {
    && Ordered(recs)
    && (HasKeywordAdvice(recs) <==> |missing| > 0)
    && (forall i :: 0 <= i < |recs| && recs[i].AddKeywords? ==> recs[i].keywords == PyPrefix(missing, SuggestedKeywordCap))
    && (AddMoreSkills in recs <==> FewSkills(resume))
    && (AddExperienceSection in recs <==> |resume.experience| == 0)
    && (AddSummarySection in recs <==> NoSummary(resume))
    && (GoodFit in recs <==> !(|missing| > 0 || FewSkills(resume) || |resume.experience| == 0 || NoSummary(resume)))
  }

  /** The keyword advice, when keywords are missing. */
  function KeywordAdvice(missing: seq<string>): seq<Recommendation>
  {
    if |missing| > 0 then [AddKeywords(PyPrefix(missing, SuggestedKeywordCap))] else []
  }

  /** `recs` with `x` appended when it applies to the résumé. */
  function WithAdvice(resume: ResumeData, recs: seq<Recommendation>, x: Recommendation): seq<Recommendation>
  {
    if Applies(resume, x) then recs + [x] else recs
  }

  /** The good-fit message when there is no other advice. */
  function OrGoodFit(recs: seq<Recommendation>): seq<Recommendation>
  {
    if |recs| == 0 then [GoodFit] else recs
  }

  /** The list `_generate_recommendations` builds, one conditional append at a time. */
  function Advice(resume: ResumeData, missing: seq<string>): seq<Recommendation>
  {
    var withSkills := WithAdvice(resume, KeywordAdvice(missing), AddMoreSkills);
    var withExperience := WithAdvice(resume, withSkills, AddExperienceSection);
    OrGoodFit(WithAdvice(resume, withExperience, AddSummarySection))
  }

  /** The built list is the advice the résumé calls for. */
  lemma AdviceAdvised(resume: ResumeData, missing: seq<string>)
    ensures AdvisedFor(resume, missing, Advice(resume, missing))
  {
    var withKeywords := KeywordAdvice(missing);
    AdviseFirst(resume, missing, withKeywords);
    AdviseStep(resume, missing, withKeywords, AddMoreSkills);
    var withSkills := WithAdvice(resume, withKeywords, AddMoreSkills);
    AdviseStep(resume, missing, withSkills, AddExperienceSection);
    var withExperience := WithAdvice(resume, withSkills, AddExperienceSection);
    AdviseStep(resume, missing, withExperience, AddSummarySection);
    AdviseLast(resume, missing, WithAdvice(resume, withExperience, AddSummarySection));
  }

  /** `_generate_recommendations`: appends each applicable piece of advice in turn. */
  method GenerateRecommendations(resume: ResumeData, missing: seq<string>) returns (recs: seq<Recommendation>)
    ensures recs == Advice(resume, missing)
    ensures AdvisedFor(resume, missing, recs)
  {
    recs := [];
    if |missing| > 0 {
      recs := recs + [AddKeywords(PyPrefix(missing, SuggestedKeywordCap))];
    }
    assert recs == KeywordAdvice(missing);
    ghost var before := recs;
    if FewSkills(resume) {
      recs := recs + [AddMoreSkills];
    }
    assert recs == WithAdvice(resume, before, AddMoreSkills);
    before := recs;
    if |resume.experience| == 0 {
      recs := recs + [AddExperienceSection];
    }
    assert recs == WithAdvice(resume, before, AddExperienceSection);
    before := recs;
    if NoSummary(resume) {
      recs := recs + [AddSummarySection];
    }
    assert recs == WithAdvice(resume, before, AddSummarySection);
    if |recs| == 0 {
      recs := recs + [GoodFit];
    }
    AdviceAdvised(resume, missing);
  }

  /** When the advice of rank 1 to 3 applies to a résumé. */
  predicate Applies(resume: ResumeData, x: Recommendation)
  {
    match x
    case AddMoreSkills => FewSkills(resume)
    case AddExperienceSection => |resume.experience| == 0
    case AddSummarySection => NoSummary(resume)
    case _ => false
  }

  /** The advice of the ranks below `stage` is in place and nothing else is. */
  ghost predicate AdvisedUpTo(resume: ResumeData, missing: seq<string>, recs: seq<Recommendation>, stage: nat)
  {
    && Ordered(recs)
    && (forall i :: 0 <= i < |recs| ==> Rank(recs[i]) < stage)
    && (HasKeywordAdvice(recs) <==> |missing| > 0)
    && (forall i :: 0 <= i < |recs| && recs[i].AddKeywords? ==> recs[i].keywords == PyPrefix(missing, SuggestedKeywordCap))
    && (stage > 1 ==> (AddMoreSkills in recs <==> FewSkills(resume)))
    && (stage > 2 ==> (AddExperienceSection in recs <==> |resume.experience| == 0))
    && (stage > 3 ==> (AddSummarySection in recs <==> NoSummary(resume)))
  }

  /** The first, keyword, step of `_generate_recommendations`. */
  lemma AdviseFirst(resume: ResumeData, missing: seq<string>, recs: seq<Recommendation>)
    requires recs == KeywordAdvice(missing)
    ensures AdvisedUpTo(resume, missing, recs, 1)
  {
    if |missing| > 0 {
      assert recs[0].AddKeywords?;
    }
  }

  /** One conditional append of `_generate_recommendations`. */
  lemma AdviseStep(resume: ResumeData, missing: seq<string>, recs: seq<Recommendation>, x: Recommendation)
    requires 1 <= Rank(x) <= 3
    requires AdvisedUpTo(resume, missing, recs, Rank(x))
    ensures AdvisedUpTo(resume, missing, WithAdvice(resume, recs, x), Rank(x) + 1)
  {
    if Applies(resume, x) {
      AppendAdvice(recs, x);
    }
  }

  /** The final good-fit step of `_generate_recommendations`. */
  lemma AdviseLast(resume: ResumeData, missing: seq<string>, recs: seq<Recommendation>)
    requires AdvisedUpTo(resume, missing, recs, 4)
    ensures AdvisedFor(resume, missing, OrGoodFit(recs))
  {
    if recs == [] {
      assert !HasKeywordAdvice(recs);
      assert !HasKeywordAdvice([GoodFit]);
    } else {
      assert GoodFit !in recs by {
        forall i | 0 <= i < |recs| ensures recs[i] != GoodFit {
          assert Rank(recs[i]) < 4;
        }
      }
      var r := recs[0];
      assert r.AddKeywords? ==> HasKeywordAdvice(recs);
      assert r in recs;
    }
  }

  /** Appending advice ranked after everything in the list keeps it ordered
      and leaves its keyword advice as it was. */
  lemma AppendAdvice(recs: seq<Recommendation>, x: Recommendation)
    requires Ordered(recs) && !x.AddKeywords?
    requires forall i :: 0 <= i < |recs| ==> Rank(recs[i]) < Rank(x)
    ensures Ordered(recs + [x])
    ensures forall i :: 0 <= i < |recs| + 1 ==> (recs + [x])[i].AddKeywords? == (i < |recs| && recs[i].AddKeywords?)
    ensures forall i :: 0 <= i < |recs| + 1 ==> Rank((recs + [x])[i]) <= Rank(x)
    ensures HasKeywordAdvice(recs + [x]) == HasKeywordAdvice(recs)
  {
    var r := recs + [x];
    if HasKeywordAdvice(r) {
      var i :| 0 <= i < |r| && r[i].AddKeywords?;
      assert r[i] == recs[i];
    }
    if HasKeywordAdvice(recs) {
      var i :| 0 <= i < |recs| && recs[i].AddKeywords?;
      assert r[i] == recs[i];
    }
  }

  /** In an ordered list each rank exceeds the first by at least its position. */
  lemma {:induction false} RanksGrow(recs: seq<Recommendation>, i: nat)
    requires Ordered(recs) && i < |recs|
    ensures Rank(recs[i]) >= Rank(recs[0]) + i
  {
    if i > 0 {
      RanksGrow(recs, i - 1);
    }
  }

  /** The advice is never empty; it starts with the keyword suggestion
      exactly when keywords are missing, naming at most five of them; the
      good-fit message only ever stands alone. */
  lemma AdviceSpec(resume: ResumeData, missing: seq<string>, recs: seq<Recommendation>)
    requires AdvisedFor(resume, missing, recs)
    ensures |recs| >= 1
    ensures recs[0].AddKeywords? <==> |missing| > 0
    ensures recs[0].AddKeywords? ==> 1 <= |recs[0].keywords| <= SuggestedKeywordCap
    ensures GoodFit in recs ==> recs == [GoodFit]
  {
    if HasKeywordAdvice(recs) {
      var i :| 0 <= i < |recs| && recs[i].AddKeywords?;
      RanksGrow(recs, i);
    }
    if GoodFit in recs {
      forall i | 0 <= i < |recs| ensures recs[i] == GoodFit {
        assert recs[i] in recs;
        assert !recs[i].AddKeywords?;
      }
      RanksGrow(recs, |recs| - 1);
    }
  }

  // ------------------------------------------------------------ the match

  /** Everything `calculate_match` promises about its result. Rounding to two
      decimals is not modelled. */
  ghost predicate IsMatchFor(resume: ResumeData, job: JobPosting, m: MatchScore)
  {
    && m.skillsMatch == SkillsScore(resume, job)
    && m.experienceMatch == ExperienceScore(resume, job)
    && m.educationMatch == EducationScore(resume, job)
    && m.descriptionMatch == DescriptionScore(resume, job)
    && m.overallScore == OverallScore(m.skillsMatch, m.experienceMatch, m.educationMatch, m.descriptionMatch)
    && ReportedKeywords(resume, job, m.matchedKeywords, m.missingKeywords)
    && AdvisedFor(resume, m.missingKeywords, m.recommendations)
  }

  /** `calculate_match`: the four sub-scores, the weighted overall score,
      the keyword lists and the advice. */
  method CalculateMatch(resume: ResumeData, job: JobPosting) returns (m: MatchScore)
    ensures IsMatchFor(resume, job, m)
    ensures 0.0 <= m.overallScore <= 100.0
  {
    var skillsScore := SkillsMatch(resume, job);
    var experienceScore := ExperienceScore(resume, job);
    var educationScore := EducationScore(resume, job);
    var descriptionScore, matchedKeywords, missingKeywords := DescriptionMatch(resume, job);
    var overall := OverallScore(skillsScore, experienceScore, educationScore, descriptionScore);
    var recommendations := GenerateRecommendations(resume, missingKeywords);
    m := MatchScore(overall, skillsScore, experienceScore, educationScore, descriptionScore,
                    matchedKeywords, missingKeywords, recommendations);
    MatchScoreBounds(resume, job, m);
  }

  /** Every sub-score and the overall score of a match lie in [0, 100]. */
  lemma MatchScoreBounds(resume: ResumeData, job: JobPosting, m: MatchScore)
    requires IsMatchFor(resume, job, m)
    ensures 0.0 <= m.skillsMatch <= 100.0 && 0.0 <= m.experienceMatch <= 100.0
    ensures 0.0 <= m.educationMatch <= 100.0 && 0.0 <= m.descriptionMatch <= 100.0
    ensures 0.0 <= m.overallScore <= 100.0
  {
    SkillsScoreSpec(resume, job);
    ExperienceScoreSpec(resume, job, job);
    EducationScoreSpec(resume, job, job);
    DescriptionScoreSpec(resume, job);
    OverallBetweenSubScores(m.skillsMatch, m.experienceMatch, m.educationMatch, m.descriptionMatch);
  }
}
